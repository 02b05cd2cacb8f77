/** The entry point of the managed program: the guards it passes before it
    installs anything. Not an administrator: relaunch elevated and stop.
    Fewer than two arguments: print the usage and stop. Then the font folder
    must exist, and then the variables file must exist. Only a run that
    passes all four guards installs the font files found in the folder. */
module ManagedMain {
  import opened Elevation
  import opened ManagedFonts

  datatype MainOutcome =
    | Relaunched(arguments: string)
    | Usage
    | MissingDirectory(path: string)
    | MissingFile(path: string)
    | Install(fontFiles: seq<string>, variablesFile: string)

  /** The decision taken by the entry point. `isAdmin` is the privilege
      check, `directoryExists` and `fileExists` answer for the file system,
      and `listFiles` enumerates the top level of a folder. */
  function MainDecision(args: seq<string>, isAdmin: bool, directoryExists: string -> bool,
                        fileExists: string -> bool, listFiles: string -> seq<string>): (r: MainOutcome)
    ensures r.Install? <==> isAdmin && |args| >= 2 && directoryExists(args[0]) && fileExists(args[1])
    ensures r.Relaunched? <==> !isAdmin
    ensures !isAdmin ==> r == Relaunched(ManagedArguments(args))
    ensures isAdmin ==> (r == Usage <==> |args| < 2)
    ensures r.MissingDirectory? ==> isAdmin && |args| >= 2 && r.path == args[0] && !directoryExists(args[0])
    ensures r.MissingFile? ==>
      isAdmin && |args| >= 2 && directoryExists(args[0]) && r.path == args[1] && !fileExists(args[1])
    ensures r.Install? ==> r.fontFiles == FilterFonts(listFiles(args[0])) && r.variablesFile == args[1]
  {
    if !isAdmin then Relaunched(ManagedArguments(args))
    else if |args| < 2 then Usage
    else if !directoryExists(args[0]) then MissingDirectory(args[0])
    else if !fileExists(args[1]) then MissingFile(args[1])
    else Install(FilterFonts(listFiles(args[0])), args[1])
  }

  /** Arguments after the second are ignored. */
  lemma ExtraArgumentsIgnored(args: seq<string>, extra: seq<string>, directoryExists: string -> bool,
                              fileExists: string -> bool, listFiles: string -> seq<string>)
    requires |args| >= 2
    ensures MainDecision(args + extra, true, directoryExists, fileExists, listFiles)
         == MainDecision(args, true, directoryExists, fileExists, listFiles)
  {
    assert (args + extra)[0] == args[0] && (args + extra)[1] == args[1];
  }
}
