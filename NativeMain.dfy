/** The entry point of the native program and the marker file it writes:
    relaunch elevated when not an administrator, insist on exactly two
    arguments and an existing source folder, then install the fonts, write
    the marker and restart the companion application. */
module NativeMain {
  import opened Text
  import opened Elevation

  /** The lines of the marker file. */
  const MarkerLines: seq<string> := ["[Variables]", "Installed_Fonts=1"]

  /** The full text of the marker file: the two marker lines, each ended by
      a line feed. */
  function MarkerText(): (r: string)
    ensures r == Unlines(MarkerLines)
  {
    assert MarkerLines[1..][1..] == [];
    "[Variables]\n" + "Installed_Fonts=1\n"
  }

  /** The marker text reads back as exactly the two marker lines. */
  lemma MarkerTextLines()
    ensures Lines(MarkerText()) == MarkerLines
  {
    assert '\n' !in MarkerLines[0] && '\n' !in MarkerLines[1];
    LinesUnlines(MarkerLines);
  }

  /** The steps of one run of the native program, in order. */
  datatype Step =
    | Relaunch(params: string)
    | InstallFonts(folder: string)
    | WriteMarker(file: string)
    | RestartRainmeter

  datatype Run = Run(steps: seq<Step>, exitCode: int)

  /** One run of the entry point. `argv` holds the program path and the
      arguments; `isAdmin` is the privilege check, `launched` whether the
      elevated instance could be started, and `folderExists` and
      `folderIsDirectory` what the file system says of `argv[1]`. */
  function Wmain(argv: seq<string>, isAdmin: bool, launched: bool,
                 folderExists: bool, folderIsDirectory: bool): (r: Run)
    ensures r.exitCode == 0 || r.exitCode == 1
    ensures r.exitCode == 0 <==>
      if isAdmin then |argv| == 3 && folderExists && folderIsDirectory else launched
    ensures !isAdmin ==> r.steps == [Relaunch(NativeParams(Forwarded(argv)))]
    ensures isAdmin && r.exitCode == 1 ==> r.steps == []
    ensures isAdmin && r.exitCode == 0 ==>
      |argv| == 3 && r.steps == [InstallFonts(argv[1]), WriteMarker(argv[2]), RestartRainmeter]
  {
    if !isAdmin then
      Run([Relaunch(NativeParams(Forwarded(argv)))], if launched then 0 else 1)
    else if |argv| != 3 then
      Run([], 1)
    else if folderExists && folderIsDirectory then
      Run([InstallFonts(argv[1]), WriteMarker(argv[2]), RestartRainmeter], 0)
    else
      Run([], 1)
  }
}
