/** The managed program's update of the variables file: the first line that
    starts with `Installed_Fonts=` becomes `Installed_Fonts=1`; when there is
    none, that line is added at the end. Every other line stays as it was. */
module VariablesFile {
  import opened Text
  import NativeMain

  const InstalledKey := "Installed_Fonts="
  const InstalledLine := "Installed_Fonts=1"

  predicate IsInstalledLine(line: string) {
    StartsWith(line, InstalledKey)
  }

  /** Position of the first line that starts with the key. */
  function FirstInstalledLine(lines: seq<string>): (r: Option<nat>)
    ensures r.Some? ==> r.value < |lines| && IsInstalledLine(lines[r.value])
    ensures r.Some? ==> forall k :: 0 <= k < r.value ==> !IsInstalledLine(lines[k])
    ensures r.None? <==> forall k :: 0 <= k < |lines| ==> !IsInstalledLine(lines[k])
  {
    if lines == [] then None
    else if IsInstalledLine(lines[0]) then Some(0)
    else match FirstInstalledLine(lines[1..])
      case None => None
      case Some(i) => Some(i + 1)
  }

  /** The lines after the update. */
  function UpdatedLines(lines: seq<string>): (r: seq<string>)
    ensures |lines| <= |r| <= |lines| + 1
    ensures forall j :: 0 <= j < |lines| && r[j] != lines[j] ==> IsInstalledLine(lines[j]) && r[j] == InstalledLine
    ensures |r| == |lines| + 1 ==> r[|lines|] == InstalledLine
  {
    match FirstInstalledLine(lines)
    case None => lines + [InstalledLine]
    case Some(k) => lines[k := InstalledLine]
  }

  /** The update with the managed `UpdateVariablesFile`'s loop: scan for the first key line,
      replace it and stop, or else add the line at the end. `lines` is the
      file as read line by line; the result is what is written back. */
  method UpdateVariablesFile(lines: seq<string>) returns (result: seq<string>)
    ensures result == UpdatedLines(lines)
  {
    result := lines;
    var found := false;
    var i := 0;
    while i < |result|
      invariant 0 <= i <= |result| && result == lines && !found
      invariant forall k :: 0 <= k < i ==> !IsInstalledLine(lines[k])
    {
      if StartsWith(result[i], InstalledKey) {
        result := result[i := InstalledLine];
        found := true;
        break;
      }
      i := i + 1;
    }
    if !found {
      result := result + [InstalledLine];
    }
  }

  /** With a key line present, exactly the first one is replaced and the
      number of lines stays the same. */
  lemma ReplacesFirstKeyLine(lines: seq<string>, k: nat)
    requires k < |lines| && IsInstalledLine(lines[k])
    requires forall j :: 0 <= j < k ==> !IsInstalledLine(lines[j])
    ensures |UpdatedLines(lines)| == |lines|
    ensures UpdatedLines(lines)[k] == InstalledLine
    ensures forall j :: 0 <= j < |lines| && j != k ==> UpdatedLines(lines)[j] == lines[j]
  {
    assert FirstInstalledLine(lines) == Some(k);
  }

  /** Without a key line, the line is appended and nothing else changes. */
  lemma AppendsWhenMissing(lines: seq<string>)
    requires forall j :: 0 <= j < |lines| ==> !IsInstalledLine(lines[j])
    ensures UpdatedLines(lines) == lines + [InstalledLine]
  {
  }

  /** After the update the file holds the line, and its first key line is
      that line. */
  lemma UpdatedHasInstalledLine(lines: seq<string>)
    ensures InstalledLine in UpdatedLines(lines)
    ensures var u := UpdatedLines(lines);
      FirstInstalledLine(u).Some? && u[FirstInstalledLine(u).value] == InstalledLine
  {
    var u := UpdatedLines(lines);
    assert IsInstalledLine(InstalledLine);
    match FirstInstalledLine(lines)
    case None =>
      assert u[|lines|] == InstalledLine;
      assert FirstInstalledLine(u) == Some(|lines|) by {
        assert forall j :: 0 <= j < |lines| ==> u[j] == lines[j];
      }
    case Some(k) =>
      ReplacesFirstKeyLine(lines, k);
      assert FirstInstalledLine(u) == Some(k) by {
        assert forall j :: 0 <= j < k ==> u[j] == lines[j];
      }
  }

  /** Updating twice gives the same lines as updating once. */
  lemma {:induction false} UpdateIdempotent(lines: seq<string>)
    ensures UpdatedLines(UpdatedLines(lines)) == UpdatedLines(lines)
  {
    var u := UpdatedLines(lines);
    UpdatedHasInstalledLine(lines);
    var k := FirstInstalledLine(u).value;
    assert u[k := InstalledLine] == u;
  }

  /** The marker the native program writes is already up to date for the
      managed program. */
  lemma {:induction false} MarkerIsUpToDate()
    ensures UpdatedLines(NativeMain.MarkerLines) == NativeMain.MarkerLines
  {
    var m := NativeMain.MarkerLines;
    assert !IsInstalledLine(m[0]) by {
      assert m[0][0] != InstalledKey[0];
    }
    assert m[1][..|InstalledKey|] == InstalledKey;
    ReplacesFirstKeyLine(m, 1);
    assert UpdatedLines(m) == m;
  }
}
