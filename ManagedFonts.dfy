/** Font installation of the managed program: the files of the source folder
    that end in `.ttf` or `.otf` (ignoring case) are installed one after the
    other; a failing font is reported and the next one is tried. Installing
    a font loads it, broadcasts the change, copies it into the fonts folder
    unless a file of that name is already there, and registers it, adding
    ` (OpenType)` to the display name of an `.otf` file. */
module ManagedFonts {
  import opened Text
  import opened Paths
  import opened Effects

  /** The path ends in `.ttf` or `.otf`, in any mix of upper and lower case. */
  predicate IsFontFile(path: string)
    ensures IsFontFile(path) ==> |path| >= 4 && path[|path| - 4] == '.'
  {
    assert Lower(".ttf")[0] == '.' && Lower(".otf")[0] == '.';
    EndsWithIgnoreCase(path, ".ttf") || EndsWithIgnoreCase(path, ".otf")
  }

  /** The font files among the enumerated paths, in enumeration order. */
  function FilterFonts(paths: seq<string>): (r: seq<string>)
    ensures forall i :: 0 <= i < |r| ==> IsFontFile(r[i])
    ensures |r| <= |paths|
  {
    if paths == [] then []
    else
      var last := paths[|paths| - 1];
      FilterFonts(paths[..|paths| - 1]) + if IsFontFile(last) then [last] else []
  }

  /** Each font file is kept as often as it occurs, and no other path is. */
  lemma {:induction false} FilterFontsCount(paths: seq<string>, p: string)
    ensures multiset(FilterFonts(paths))[p] == if IsFontFile(p) then multiset(paths)[p] else 0
  {
    if paths != [] {
      var init, last := paths[..|paths| - 1], paths[|paths| - 1];
      FilterFontsCount(init, p);
      assert paths == init + [last];
    }
  }

  /** Filtering a concatenation filters each part: the order of the kept
      paths is the order of enumeration. */
  lemma {:induction false} FilterFontsAppend(a: seq<string>, b: seq<string>)
    ensures FilterFonts(a + b) == FilterFonts(a) + FilterFonts(b)
  {
    if b == [] {
      assert a + b == a;
    } else {
      assert (a + b)[..|a + b| - 1] == a + b[..|b| - 1];
      assert (a + b)[|a + b| - 1] == b[|b| - 1];
      FilterFontsAppend(a, b[..|b| - 1]);
    }
  }

  /** A list of font files passes the filter unchanged. */
  lemma {:induction false} FilterFontsKeepsFonts(paths: seq<string>)
    requires forall i :: 0 <= i < |paths| ==> IsFontFile(paths[i])
    ensures FilterFonts(paths) == paths
  {
    if paths != [] {
      FilterFontsKeepsFonts(paths[..|paths| - 1]);
    }
  }

  /** The registry value name of a font file: its file name without the
      extension, followed by ` (OpenType)` when the lower-cased extension is
      `.otf`. */
  function RegistryName(path: string): (r: string)
    ensures StartsWith(r, FileNameWithoutExtension(path))
    ensures NoSeparator(r)
  {
    var fontName := FileNameWithoutExtension(path);
    if Lower(Extension(path)) == ".otf" then fontName + " (OpenType)" else fontName
  }

  /** For a path that passed the filter, the extension test of the registry
      name agrees with the filter's own test: the name is marked OpenType
      exactly when the path ends in `.otf`, ignoring case. */
  lemma OpenTypeExactlyForOtf(path: string)
    requires IsFontFile(path)
    ensures RegistryName(path) ==
      if EndsWithIgnoreCase(path, ".otf") then FileNameWithoutExtension(path) + " (OpenType)"
      else FileNameWithoutExtension(path)
  {
    var tail := path[|path| - 4..];
    var lowered := Lower(tail);
    assert lowered == ".ttf" || lowered == ".otf" by {
      assert Lower(".ttf") == ".ttf" && Lower(".otf") == ".otf";
    }
    assert tail[0] == '.' && forall i :: 1 <= i < 4 ==> tail[i] != '.' && !IsSeparator(tail[i]) by {
      assert lowered[0] == '.' && lowered[1] in "to" && lowered[2] in "tf" && lowered[3] == 'f';
    }
    ExtensionOfTail(path, tail);
    assert Lower(".otf") == ".otf";
  }

  /** What the operating system answers while one font is installed. */
  datatype FontEnvironment = FontEnvironment(
    fileExists: bool,         // the font file is there
    addFontResult: int,       // the number of fonts loaded by AddFontResource
    fontsFolder: string,      // the fonts folder
    destinationExists: bool,  // a file of the same name is in the fonts folder
    copySucceeds: bool,       // the copy into the fonts folder works
    keyOpens: bool)           // the font registry key opens for writing

  datatype InstallError = FontFileNotFound | AddFontResourceFailed | CopyFailed | RegistryUnavailable

  /** The calls made while installing one font, and the error that ended the
      installation of that font, if any. */
  datatype FontOutcome = FontOutcome(effects: seq<Effect>, error: Option<InstallError>)

  /** The destination of a font file in the fonts folder. */
  function FontDestination(path: string, env: FontEnvironment): string {
    Combine(env.fontsFolder, FileName(path))
  }

  /** Installing one font: the font is registered under its registry name,
      with its bare file name as data. */
  function InstallFont(path: string, env: FontEnvironment): (r: FontOutcome)
    ensures r.error.None? ==>
      r.effects != [] && r.effects[|r.effects| - 1] == SetRegistryValue(RegistryValue(RegistryName(path), FileName(path)))
  {
    InstallFontAs(path, env, RegistryValue(RegistryName(path), FileName(path)))
  }

  /** The checks and calls of one installation in the order of the managed `InstallFont`, for
      the registry value `value` the font gets once everything before has
      worked. */
  function InstallFontAs(path: string, env: FontEnvironment, value: RegistryValue): (r: FontOutcome)
    ensures |r.effects| <= 4
    ensures SetRegistryValue(value) in r.effects <==> r.error.None?
    ensures r.error.None? ==> r.effects != [] && r.effects[|r.effects| - 1] == SetRegistryValue(value)
  {
    if !env.fileExists then FontOutcome([], Some(FontFileNotFound))
    else if env.addFontResult == 0 then FontOutcome([AddFontResource(path)], Some(AddFontResourceFailed))
    else
      var loaded := [AddFontResource(path), BroadcastFontChange];
      var copy := [CopyFile(path, FontDestination(path, env))];
      if !env.destinationExists && !env.copySucceeds then FontOutcome(loaded + copy, Some(CopyFailed))
      else
        var placed := loaded + if env.destinationExists then [] else copy;
        if !env.keyOpens then FontOutcome(placed, Some(RegistryUnavailable))
        else FontOutcome(placed + [SetRegistryValue(value)], None)
  }

  /** Every check and call of the installation of a font succeeds. */
  predicate Installs(env: FontEnvironment) {
    env.fileExists && env.addFontResult != 0 && (env.destinationExists || env.copySucceeds) && env.keyOpens
  }

  /** A font is registered exactly when its installation raises no error,
      under its registry name and with its bare file name as data. */
  lemma InstallFontSummary(path: string, env: FontEnvironment)
    ensures InstallFont(path, env).error.None? <==> Installs(env)
    ensures Registrations(InstallFont(path, env).effects) ==
      if Installs(env) then [RegistryValue(RegistryName(path), FileName(path))] else []
  {
    var add := AddFontResource(path);
    var loaded := [add, BroadcastFontChange];
    var copy := CopyFile(path, FontDestination(path, env));
    var register := SetRegistryValue(RegistryValue(RegistryName(path), FileName(path)));
    RecordOne([], add);
    assert [] + [add] == [add];
    RecordOne([add], BroadcastFontChange);
    assert [add] + [BroadcastFontChange] == loaded;
    RecordOne(loaded, copy);
    RecordOne(loaded, register);
    RecordOne(loaded + [copy], register);
    assert loaded + [] == loaded;
  }

  /** The copy into the fonts folder is attempted once the font has loaded,
      and only when no file of that name is there yet: an installed font is
      never copied over. */
  lemma InstallFontCopies(path: string, env: FontEnvironment)
    ensures Copies(InstallFont(path, env).effects) ==
      if env.fileExists && env.addFontResult != 0 && !env.destinationExists
      then [CopyFile(path, FontDestination(path, env))] else []
  {
    InstallFontAsCopies(path, env, RegistryValue(RegistryName(path), FileName(path)));
  }

  /** The copies of one installation do not depend on the registry value. */
  lemma InstallFontAsCopies(path: string, env: FontEnvironment, value: RegistryValue)
    ensures Copies(InstallFontAs(path, env, value).effects) ==
      if env.fileExists && env.addFontResult != 0 && !env.destinationExists
      then [CopyFile(path, FontDestination(path, env))] else []
  {
    var add := AddFontResource(path);
    var loaded := [add, BroadcastFontChange];
    var copy := CopyFile(path, FontDestination(path, env));
    var register := SetRegistryValue(value);
    RecordOne([], add);
    assert [] + [add] == [add];
    RecordOne([add], BroadcastFontChange);
    assert [add] + [BroadcastFontChange] == loaded;
    RecordOne(loaded, copy);
    RecordOne(loaded, register);
    RecordOne(loaded + [copy], register);
    assert loaded + [] == loaded;
  }

  /** The foreach of the managed program: every font is tried and a failure
      does not stop the others. `env` gives the operating system's answers
      for each font path. */
  function InstallFonts(fonts: seq<string>, env: string -> FontEnvironment): seq<Effect> {
    if fonts == [] then []
    else
      var last := fonts[|fonts| - 1];
      InstallFonts(fonts[..|fonts| - 1], env) + InstallFont(last, env(last)).effects
  }

  /** Installing two lists of fonts one after the other makes the same calls
      as installing their concatenation: what happens to one font does not
      depend on the fonts before it. */
  lemma {:induction false} InstallFontsAppend(a: seq<string>, b: seq<string>, env: string -> FontEnvironment)
    ensures InstallFonts(a + b, env) == InstallFonts(a, env) + InstallFonts(b, env)
  {
    if b == [] {
      assert a + b == a;
    } else {
      var init, last := b[..|b| - 1], b[|b| - 1];
      var now := InstallFont(last, env(last)).effects;
      assert (a + b)[..|a + b| - 1] == a + init && (a + b)[|a + b| - 1] == last;
      assert InstallFonts(a + b, env) == InstallFonts(a + init, env) + now;
      assert InstallFonts(b, env) == InstallFonts(init, env) + now;
      InstallFontsAppend(a, init, env);
      Regroup(InstallFonts(a, env), InstallFonts(init, env), now);
    }
  }

  lemma Regroup(x: seq<Effect>, y: seq<Effect>, z: seq<Effect>)
    ensures x + y + z == x + (y + z)
  {
  }

  /** The fonts whose installation raises no error, in order. */
  function Installed(fonts: seq<string>, env: string -> FontEnvironment): seq<string> {
    if fonts == [] then []
    else
      var last := fonts[|fonts| - 1];
      Installed(fonts[..|fonts| - 1], env) + if Installs(env(last)) then [last] else []
  }

  /** `values` are, position by position, the registry values of the fonts
      `installed`: registry name to bare file name. */
  predicate RegistersInOrder(values: seq<RegistryValue>, installed: seq<string>) {
    |values| == |installed| &&
    forall k :: 0 <= k < |installed| ==>
      values[k] == RegistryValue(RegistryName(installed[k]), FileName(installed[k]))
  }

  lemma RegistersInOrderAppend(v1: seq<RegistryValue>, f1: seq<string>, v2: seq<RegistryValue>, f2: seq<string>)
    requires RegistersInOrder(v1, f1) && RegistersInOrder(v2, f2)
    ensures RegistersInOrder(v1 + v2, f1 + f2)
  {
    forall k | |f1| <= k < |f1 + f2|
      ensures (v1 + v2)[k] == RegistryValue(RegistryName((f1 + f2)[k]), FileName((f1 + f2)[k]))
    {
      assert (v1 + v2)[k] == v2[k - |f1|] && (f1 + f2)[k] == f2[k - |f1|];
    }
  }

  /** The registry values written by the whole loop are those of the fonts
      that install without error, in order, whatever failed around them. */
  lemma {:induction false} RegistrationsOfFonts(fonts: seq<string>, env: string -> FontEnvironment)
    ensures RegistersInOrder(Registrations(InstallFonts(fonts, env)), Installed(fonts, env))
  {
    if fonts != [] {
      var init, last := fonts[..|fonts| - 1], fonts[|fonts| - 1];
      RegistrationsOfFonts(init, env);
      RegistrationsAppend(InstallFonts(init, env), InstallFont(last, env(last)).effects);
      InstallFontSummary(last, env(last));
      RegistersInOrderAppend(Registrations(InstallFonts(init, env)), Installed(init, env),
        Registrations(InstallFont(last, env(last)).effects), if Installs(env(last)) then [last] else []);
    }
  }
}
