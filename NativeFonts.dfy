/** Font installation of the native program: every regular file of the
    source folder is copied into the fonts folder under its own file name,
    and each file whose copy succeeded is registered with its file name
    truncated at the last `.` as display name and the bare file name as data.
    A "fonts changed" broadcast ends the run. */
module NativeFonts {
  import opened Text
  import opened Paths
  import opened Effects

  /** One entry of the source folder as the directory walk yields it, with
      the outcome the copy of it into the fonts folder will have. */
  datatype DirEntry = DirEntry(path: string, isRegularFile: bool, copySucceeds: bool)

  /** Where a file is copied: the fonts folder, a `\`, the file name. */
  function DestinationPath(fontsFolder: string, fileName: string): string {
    fontsFolder + "\\" + fileName
  }

  /** For a fonts folder that does not end in a separator and a bare file
      name, the managed `Path.Combine` gives the native destination: both
      programs copy a font to the same place. */
  lemma CombineIsDestination(fontsFolder: string, fileName: string)
    requires fontsFolder != [] && !IsSeparator(fontsFolder[|fontsFolder| - 1])
    requires fileName != [] && NoSeparator(fileName)
    ensures Combine(fontsFolder, fileName) == DestinationPath(fontsFolder, fileName)
  {
  }

  /** The registry value for a font file: the name truncated at its last
      `.`, mapped to the bare file name. */
  function RegistryValueFor(fileName: string): RegistryValue {
    RegistryValue(WithoutExtension(fileName), fileName)
  }

  /** The calls made for one directory entry. */
  function EntryEffects(fontsFolder: string, e: DirEntry): (r: seq<Effect>)
    ensures |r| <= 2
  {
    if !e.isRegularFile then []
    else
      var fileName := FileName(e.path);
      [CopyFile(e.path, DestinationPath(fontsFolder, fileName))]
      + if e.copySucceeds then [SetRegistryValue(RegistryValueFor(fileName))] else []
  }

  /** The calls made for a sequence of directory entries, in order. */
  function EntriesEffects(fontsFolder: string, entries: seq<DirEntry>): seq<Effect> {
    if entries == [] then []
    else EntriesEffects(fontsFolder, entries[..|entries| - 1]) + EntryEffects(fontsFolder, entries[|entries| - 1])
  }

  /** The entries that are regular files. */
  function RegularFiles(entries: seq<DirEntry>): seq<DirEntry> {
    if entries == [] then []
    else
      var e := entries[|entries| - 1];
      RegularFiles(entries[..|entries| - 1]) + if e.isRegularFile then [e] else []
  }

  /** The entries that are regular files and whose copy succeeds. */
  function CopiedFiles(entries: seq<DirEntry>): seq<DirEntry> {
    if entries == [] then []
    else
      var e := entries[|entries| - 1];
      CopiedFiles(entries[..|entries| - 1]) + if e.isRegularFile && e.copySucceeds then [e] else []
  }

  /** One more entry adds its own calls at the end. */
  lemma EntriesEffectsStep(fontsFolder: string, entries: seq<DirEntry>, i: nat)
    requires i < |entries|
    ensures EntriesEffects(fontsFolder, entries[..i + 1]) ==
      EntriesEffects(fontsFolder, entries[..i]) + EntryEffects(fontsFolder, entries[i])
  {
    assert entries[..i + 1][..i] == entries[..i];
  }

  /** The installation with the native `InstallFontsFromFolder`'s range-for over the directory entries.
      `fontsFolder` is the result of the fonts-folder lookup; when the lookup
      fails, the error is caught and logged before anything is done, so not
      even the broadcast happens. */
  method InstallFontsFromFolder(fontsFolder: Option<string>, entries: seq<DirEntry>) returns (effects: seq<Effect>)
    ensures fontsFolder.None? ==> effects == []
    ensures fontsFolder.Some? ==> effects == EntriesEffects(fontsFolder.value, entries) + [BroadcastFontChange]
  {
    effects := [];
    if fontsFolder.None? {
      return;
    }
    var folder := fontsFolder.value;
    for i := 0 to |entries|
      invariant effects == EntriesEffects(folder, entries[..i])
    {
      var entry := entries[i];
      EntriesEffectsStep(folder, entries, i);
      if entry.isRegularFile {
        var fileName := FileName(entry.path);
        var fontName := WithoutExtension(fileName);
        var destinationPath := folder + "\\" + fileName;
        effects := effects + [CopyFile(entry.path, destinationPath)];
        if entry.copySucceeds {
          effects := effects + [SetRegistryValue(RegistryValue(fontName, fileName))];
        }
      }
    }
    assert entries[..|entries|] == entries;
    effects := effects + [BroadcastFontChange];
  }

  /** `copies` are, position by position, the copies of the regular files
      `regular` into the fonts folder under their own file names. */
  predicate CopiesInOrder(fontsFolder: string, copies: seq<Effect>, regular: seq<DirEntry>) {
    |copies| == |regular| &&
    forall k :: 0 <= k < |regular| ==>
      copies[k] == CopyFile(regular[k].path, DestinationPath(fontsFolder, FileName(regular[k].path)))
  }

  /** `values` are, position by position, the registry values of the copied
      files `copied`. */
  predicate RegistersInOrder(values: seq<RegistryValue>, copied: seq<DirEntry>) {
    |values| == |copied| &&
    forall k :: 0 <= k < |copied| ==> values[k] == RegistryValueFor(FileName(copied[k].path))
  }

  lemma CopiesInOrderAppend(fontsFolder: string, c1: seq<Effect>, r1: seq<DirEntry>, c2: seq<Effect>, r2: seq<DirEntry>)
    requires CopiesInOrder(fontsFolder, c1, r1) && CopiesInOrder(fontsFolder, c2, r2)
    ensures CopiesInOrder(fontsFolder, c1 + c2, r1 + r2)
  {
    forall k | |r1| <= k < |r1 + r2|
      ensures (c1 + c2)[k] == CopyFile((r1 + r2)[k].path, DestinationPath(fontsFolder, FileName((r1 + r2)[k].path)))
    {
      assert (c1 + c2)[k] == c2[k - |r1|] && (r1 + r2)[k] == r2[k - |r1|];
    }
  }

  lemma RegistersInOrderAppend(v1: seq<RegistryValue>, c1: seq<DirEntry>, v2: seq<RegistryValue>, c2: seq<DirEntry>)
    requires RegistersInOrder(v1, c1) && RegistersInOrder(v2, c2)
    ensures RegistersInOrder(v1 + v2, c1 + c2)
  {
    forall k | |c1| <= k < |c1 + c2|
      ensures (v1 + v2)[k] == RegistryValueFor(FileName((c1 + c2)[k].path))
    {
      assert (v1 + v2)[k] == v2[k - |c1|] && (c1 + c2)[k] == c2[k - |c1|];
    }
  }

  /** One copy is attempted per regular file, in directory order, to the
      fonts folder under the file's own name. */
  lemma {:induction false} CopiesOfEntries(fontsFolder: string, entries: seq<DirEntry>)
    ensures CopiesInOrder(fontsFolder, Copies(EntriesEffects(fontsFolder, entries)), RegularFiles(entries))
  {
    if entries != [] {
      var init, last := entries[..|entries| - 1], entries[|entries| - 1];
      CopiesOfEntries(fontsFolder, init);
      CopiesAppend(EntriesEffects(fontsFolder, init), EntryEffects(fontsFolder, last));
      EntryEffectsSummary(fontsFolder, last);
      CopiesInOrderAppend(fontsFolder, Copies(EntriesEffects(fontsFolder, init)), RegularFiles(init),
        Copies(EntryEffects(fontsFolder, last)), if last.isRegularFile then [last] else []);
    }
  }

  /** One registry value is written per regular file whose copy succeeded, in
      directory order, naming the font by its file name truncated at the
      last `.` and holding the bare file name. */
  lemma {:induction false} RegistrationsOfEntries(fontsFolder: string, entries: seq<DirEntry>)
    ensures RegistersInOrder(Registrations(EntriesEffects(fontsFolder, entries)), CopiedFiles(entries))
  {
    if entries != [] {
      var init, last := entries[..|entries| - 1], entries[|entries| - 1];
      RegistrationsOfEntries(fontsFolder, init);
      EntryRegisters(fontsFolder, last);
      RegistersAfter(EntriesEffects(fontsFolder, init), EntryEffects(fontsFolder, last), CopiedFiles(init),
        if last.isRegularFile && last.copySucceeds then [last] else []);
    }
  }

  /** The registry values of one entry are those of the files it adds to the
      copied ones. */
  lemma EntryRegisters(fontsFolder: string, e: DirEntry)
    ensures RegistersInOrder(Registrations(EntryEffects(fontsFolder, e)),
      if e.isRegularFile && e.copySucceeds then [e] else [])
  {
    EntryEffectsSummary(fontsFolder, e);
  }

  /** Registry values of two traces in order, for two lists of copied files
      in order. */
  lemma RegistersAfter(a: seq<Effect>, b: seq<Effect>, c1: seq<DirEntry>, c2: seq<DirEntry>)
    requires RegistersInOrder(Registrations(a), c1) && RegistersInOrder(Registrations(b), c2)
    ensures RegistersInOrder(Registrations(a + b), c1 + c2)
  {
    RegistrationsAppend(a, b);
    RegistersInOrderAppend(Registrations(a), c1, Registrations(b), c2);
  }

  /** The copy and the registry value one entry contributes. */
  lemma EntryEffectsSummary(fontsFolder: string, e: DirEntry)
    ensures Copies(EntryEffects(fontsFolder, e)) ==
      if e.isRegularFile then [CopyFile(e.path, DestinationPath(fontsFolder, FileName(e.path)))] else []
    ensures Registrations(EntryEffects(fontsFolder, e)) ==
      if e.isRegularFile && e.copySucceeds then [RegistryValueFor(FileName(e.path))] else []
  {
    var effects := EntryEffects(fontsFolder, e);
    if e.isRegularFile {
      assert effects[..1] == [effects[0]];
      assert Copies([effects[0]]) == [effects[0]];
      assert Registrations([effects[0]]) == [];
    }
  }

  /** When every copy succeeds, a folder of N regular files gives N copies
      and N registry values. */
  lemma {:induction false} AllCopiedAllRegistered(fontsFolder: string, entries: seq<DirEntry>)
    requires forall k :: 0 <= k < |entries| && entries[k].isRegularFile ==> entries[k].copySucceeds
    ensures |Copies(EntriesEffects(fontsFolder, entries))| == |RegularFiles(entries)|
    ensures |Registrations(EntriesEffects(fontsFolder, entries))| == |RegularFiles(entries)|
  {
    CopiesOfEntries(fontsFolder, entries);
    RegistrationsOfEntries(fontsFolder, entries);
    SameFilesWhenAllCopied(entries);
  }

  lemma {:induction false} SameFilesWhenAllCopied(entries: seq<DirEntry>)
    requires forall k :: 0 <= k < |entries| && entries[k].isRegularFile ==> entries[k].copySucceeds
    ensures CopiedFiles(entries) == RegularFiles(entries)
  {
    if entries != [] {
      SameFilesWhenAllCopied(entries[..|entries| - 1]);
    }
  }

  /** Registry data is always a bare file name, never a path, and the
      display name is that file name truncated at its last `.`. */
  lemma {:induction false} RegistryDataIsFileName(fontsFolder: string, entries: seq<DirEntry>, k: nat)
    requires k < |Registrations(EntriesEffects(fontsFolder, entries))|
    ensures var v := Registrations(EntriesEffects(fontsFolder, entries))[k];
      NoSeparator(v.data) && v.name == WithoutExtension(v.data)
  {
    RegistrationsOfEntries(fontsFolder, entries);
  }

  /** The trace holds only copies and registry writes. */
  predicate OnlyCopiesAndWrites(effects: seq<Effect>) {
    forall k :: 0 <= k < |effects| ==> effects[k].CopyFile? || effects[k].SetRegistryValue?
  }

  /** The calls for one entry: none for anything but a regular file;
      otherwise the copy comes first and a registry write can only follow
      it, and nothing else is called. */
  lemma EntryEffectsOrder(fontsFolder: string, e: DirEntry)
    ensures var r := EntryEffects(fontsFolder, e);
      (!e.isRegularFile ==> r == []) &&
      (e.isRegularFile ==> r != [] && r[0] == CopyFile(e.path, DestinationPath(fontsFolder, FileName(e.path)))) &&
      (|r| == 2 ==> r[1].SetRegistryValue?) &&
      OnlyCopiesAndWrites(r)
  {
  }

  /** The directory walk makes at most two calls per entry, copies and
      registry writes and nothing else: in particular no broadcast, which
      comes once, after the walk. */
  lemma {:induction false} EntriesMakeOnlyCopiesAndWrites(fontsFolder: string, entries: seq<DirEntry>)
    ensures |EntriesEffects(fontsFolder, entries)| <= 2 * |entries|
    ensures OnlyCopiesAndWrites(EntriesEffects(fontsFolder, entries))
    ensures BroadcastFontChange !in EntriesEffects(fontsFolder, entries)
  {
    if entries != [] {
      var init, last := entries[..|entries| - 1], entries[|entries| - 1];
      EntriesMakeOnlyCopiesAndWrites(fontsFolder, init);
      EntryEffectsOrder(fontsFolder, last);
      var a: seq<Effect>, b: seq<Effect> := EntriesEffects(fontsFolder, init), EntryEffects(fontsFolder, last);
      assert EntriesEffects(fontsFolder, entries) == a + b;
      forall k | 0 <= k < |a + b|
        ensures (a + b)[k].CopyFile? || (a + b)[k].SetRegistryValue?
      {
        if k < |a| {
          assert (a + b)[k] == a[k];
        } else {
          assert (a + b)[k] == b[k - |a|];
        }
      }
    }
  }

  /** The copy lands in the fonts folder and keeps the file's own name. */
  lemma DestinationKeepsFileName(fontsFolder: string, path: string)
    ensures FileName(DestinationPath(fontsFolder, FileName(path))) == FileName(path)
  {
    FileNameAfterSeparator(fontsFolder, '\\', FileName(path));
  }

  /** `Arial Custom.ttf` is registered as `Arial Custom`, and only the last
      extension of `a.b.ttf` is dropped. */
  lemma DisplayNameExamples()
    ensures RegistryValueFor("Arial Custom.ttf") == RegistryValue("Arial Custom", "Arial Custom.ttf")
    ensures WithoutExtension("a.b.ttf") == "a.b"
  {
    WithoutExtensionOfDotted("Arial Custom", "ttf");
    assert "Arial Custom" + "." + "ttf" == "Arial Custom.ttf";
    WithoutExtensionOfDotted("a.b", "ttf");
    assert "a.b" + "." + "ttf" == "a.b.ttf";
  }
}
