/** Restart of the companion application by the native program: a scan of a
    process snapshot that terminates the first process whose image name is
    exactly the wanted name and that can be opened for termination, followed
    by an unconditional launch of the application. */
module NativeProcesses {
  import opened Text

  /** One process of the snapshot: its image name and whether it can be
      opened with terminate rights. */
  datatype ProcessEntry = ProcessEntry(exeFile: string, canOpen: bool)

  /** What the restart does to processes: terminate the process at a
      position of the snapshot, or launch an executable. */
  datatype ProcessAction = Terminate(index: nat) | Launch(file: string)

  const RainmeterProcessName := "Rainmeter.exe"

  /** The entry has exactly the wanted image name (case counts) and can be
      opened. */
  predicate Terminable(e: ProcessEntry, processName: string) {
    e.exeFile == processName && e.canOpen
  }

  /** Position of the first terminable entry of the snapshot. */
  function FirstTerminable(processes: seq<ProcessEntry>, processName: string): (r: Option<nat>)
    ensures r.Some? ==> r.value < |processes| && Terminable(processes[r.value], processName)
    ensures r.Some? ==> forall j :: 0 <= j < r.value ==> !Terminable(processes[j], processName)
    ensures r.None? <==> forall j :: 0 <= j < |processes| ==> !Terminable(processes[j], processName)
  {
    if processes == [] then None
    else if Terminable(processes[0], processName) then Some(0)
    else match FirstTerminable(processes[1..], processName)
      case None => None
      case Some(i) => Some(i + 1)
  }

  /** The scan of the snapshot with `KillProcessByName`'s do-while and its early return.
      `snapshot` is `None` when no snapshot could be taken. The result is the
      position of the terminated process; `Some` is the native function's `true`. */
  method KillProcessByName(snapshot: Option<seq<ProcessEntry>>, processName: string) returns (terminated: Option<nat>)
    ensures snapshot.None? ==> terminated.None?
    ensures snapshot.Some? ==> terminated == FirstTerminable(snapshot.value, processName)
  {
    if snapshot.None? {
      return None;
    }
    var processes := snapshot.value;
    var i := 0;
    while i < |processes|
      invariant 0 <= i <= |processes|
      invariant forall j :: 0 <= j < i ==> !Terminable(processes[j], processName)
    {
      if processName == processes[i].exeFile {
        if processes[i].canOpen {
          return Some(i);
        }
      }
      i := i + 1;
    }
    return None;
  }

  /** The restart: terminate the first running instance that can be opened,
      if any, then launch the application whether or not one was found. */
  method RestartRainmeter(snapshot: Option<seq<ProcessEntry>>) returns (actions: seq<ProcessAction>)
    ensures |actions| >= 1 && actions[|actions| - 1] == Launch(RainmeterProcessName)
    ensures snapshot.None? ==> actions == [Launch(RainmeterProcessName)]
    ensures snapshot.Some? ==>
              actions == match FirstTerminable(snapshot.value, RainmeterProcessName)
                         case None => [Launch(RainmeterProcessName)]
                         case Some(i) => [Terminate(i), Launch(RainmeterProcessName)]
  {
    var terminated := KillProcessByName(snapshot, RainmeterProcessName);
    actions := if terminated.Some? then [Terminate(terminated.value)] else [];
    actions := actions + [Launch(RainmeterProcessName)];
  }

  /** A matching process that cannot be opened does not end the scan: the
      result is found among the processes after it. */
  lemma {:induction false} UnopenableMatchIsSkipped(processName: string, rest: seq<ProcessEntry>)
    ensures FirstTerminable([ProcessEntry(processName, false)] + rest, processName) ==
      match FirstTerminable(rest, processName)
      case None => None
      case Some(i) => Some(i + 1)
  {
    assert ([ProcessEntry(processName, false)] + rest)[1..] == rest;
  }

  /** The comparison is case-sensitive: a process whose image name differs
      only in case is left running. */
  lemma CaseMatters()
    ensures FirstTerminable([ProcessEntry("rainmeter.exe", true)], RainmeterProcessName) == None
  {
    assert "rainmeter.exe"[0] != RainmeterProcessName[0];
  }
}
