/** Windows path pieces the installers rely on: the file name of a path, the
    name without its extension, the extension, and joining a folder with a
    file name. Both `\` and `/` separate path components. */
module Paths {
  import opened Text

  predicate IsSeparator(c: char) {
    c == '\\' || c == '/'
  }

  predicate NoSeparator(s: string) {
    forall i :: 0 <= i < |s| ==> !IsSeparator(s[i])
  }

  /** The last component of a path: everything after its last separator. */
  function FileName(path: string): (r: string)
    ensures |r| <= |path|
    ensures NoSeparator(r)
    ensures |r| < |path| ==> IsSeparator(path[|path| - |r| - 1])
  {
    if path == [] then []
    else if IsSeparator(path[|path| - 1]) then []
    else
      var r := FileName(path[..|path| - 1]) + [path[|path| - 1]];
      r
  }

  /** The file name is the path's final stretch. */
  lemma {:induction false} FileNameIsSuffix(path: string)
    ensures EndsWith(path, FileName(path))
  {
    if path != [] && !IsSeparator(path[|path| - 1]) {
      var init := path[..|path| - 1];
      FileNameIsSuffix(init);
      assert path[|path| - |FileName(path)|..] == init[|init| - |FileName(init)|..] + [path[|path| - 1]];
    }
  }

  /** A name with everything from its last `.` removed; a name without a `.`
      is returned whole. */
  function WithoutExtension(name: string): (r: string)
    ensures StartsWith(name, r)
    ensures '.' !in name ==> r == name
    ensures '.' in name ==> |r| < |name| && name[|r|] == '.' && '.' !in name[|r| + 1..]
  {
    match LastIndexOf(name, '.')
    case None => name
    case Some(i) => name[..i]
  }

  /** The extension of a file name: from its last `.` to the end, or empty
      when the name has no `.` or ends with it. */
  function NameExtension(name: string): (r: string)
    ensures r != [] ==> |r| >= 2 && r[0] == '.' && '.' !in r[1..] && EndsWith(name, r)
    ensures r == [] <==> '.' !in name || name[|name| - 1] == '.'
  {
    match LastIndexOf(name, '.')
    case None => ""
    case Some(i) => if i == |name| - 1 then "" else name[i..]
  }

  /** The extension of a path is that of its file name. */
  function Extension(path: string): string {
    NameExtension(FileName(path))
  }

  function FileNameWithoutExtension(path: string): string {
    WithoutExtension(FileName(path))
  }

  /** Joining a folder and a name: a name that starts with a separator is
      taken as it is, and a `\` is put between the two unless the folder
      already ends with a separator. */
  function Combine(folder: string, name: string): (r: string)
    ensures EndsWith(r, name)
    ensures folder != [] && name != [] && !IsSeparator(name[0]) ==>
      StartsWith(r, folder) && |r| - |name| - |folder| in {0, 1}
    ensures folder != [] && name != [] && !IsSeparator(name[0]) ==>
      (IsSeparator(folder[|folder| - 1]) <==> |r| == |folder| + |name|)
    ensures folder != [] && name != [] && !IsSeparator(name[0]) && !IsSeparator(folder[|folder| - 1]) ==>
      r[|folder|] == '\\'
  {
    if folder == [] then name
    else if name == [] then folder
    else if IsSeparator(name[0]) then name
    else if IsSeparator(folder[|folder| - 1]) then folder + name
    else folder + "\\" + name
  }

  /** Joining a folder with a file name keeps the file name as the last
      component of the result. */
  lemma CombineFileName(folder: string, name: string)
    requires NoSeparator(name) && name != []
    ensures FileName(Combine(folder, name)) == name
  {
    if folder == [] {
      FileNameOfNoSeparator(name);
    } else if IsSeparator(folder[|folder| - 1]) {
      FileNameAfterSeparator(folder[..|folder| - 1], folder[|folder| - 1], name);
      assert folder[..|folder| - 1] + [folder[|folder| - 1]] + name == folder + name;
    } else {
      FileNameAfterSeparator(folder, '\\', name);
    }
  }

  /** A name with no separator in it is its own file name. */
  lemma {:induction false} FileNameOfNoSeparator(name: string)
    requires NoSeparator(name)
    ensures FileName(name) == name
  {
    if name != [] {
      FileNameOfNoSeparator(name[..|name| - 1]);
      assert name == name[..|name| - 1] + [name[|name| - 1]];
    }
  }

  /** What follows the last separator of a path is its file name. */
  lemma {:induction false} FileNameAfterSeparator(folder: string, sep: char, name: string)
    requires IsSeparator(sep) && NoSeparator(name)
    ensures FileName(folder + [sep] + name) == name
  {
    var p := folder + [sep] + name;
    if name == [] {
      assert p == folder + [sep];
    } else {
      var init := name[..|name| - 1];
      FileNameAfterSeparator(folder, sep, init);
      assert p[..|p| - 1] == folder + [sep] + init;
      assert p[|p| - 1] == name[|name| - 1];
      assert name == init + [name[|name| - 1]];
    }
  }

  /** Removing the extension of `stem + "." + ext` gives `stem` back whenever
      `ext` has no `.` of its own, whatever dots `stem` holds. */
  lemma WithoutExtensionOfDotted(stem: string, ext: string)
    requires '.' !in ext
    ensures WithoutExtension(stem + "." + ext) == stem
  {
    LastIndexOfBefore(stem, '.', ext);
    assert (stem + "." + ext)[..|stem|] == stem;
  }

  /** The stem and the extension put back together give the file name, except
      for a name ending with `.`, whose final dot belongs to neither. */
  lemma StemAndExtension(name: string)
    requires name == [] || name[|name| - 1] != '.'
    ensures WithoutExtension(name) + NameExtension(name) == name
  {
    match LastIndexOf(name, '.')
    case None =>
    case Some(i) =>
      assert name[..i] + name[i..] == name;
  }

  /** A final stretch of a path without separators is also a final stretch
      of its file name. */
  lemma {:induction false} FileNameOfTail(path: string, tail: string)
    requires EndsWith(path, tail) && NoSeparator(tail)
    ensures EndsWith(FileName(path), tail)
  {
    if tail != [] {
      var init, shorter := path[..|path| - 1], tail[..|tail| - 1];
      assert path[|path| - 1] == tail[|tail| - 1];
      assert init[|init| - |shorter|..] == shorter;
      FileNameOfTail(init, shorter);
      assert FileName(path) == FileName(init) + [tail[|tail| - 1]];
      assert tail == shorter + [tail[|tail| - 1]];
    }
  }

  /** A name whose final characters are a `.` followed by characters that are
      not `.` has exactly those characters as extension. */
  lemma NameExtensionOfTail(name: string, tail: string)
    requires EndsWith(name, tail) && |tail| >= 2 && tail[0] == '.' && '.' !in tail[1..]
    ensures NameExtension(name) == tail
  {
    var stem := name[..|name| - |tail|];
    assert name == stem + ['.'] + tail[1..];
    LastIndexOfBefore(stem, '.', tail[1..]);
  }

  /** A path whose final characters are a `.` followed by characters that are
      neither `.` nor separators has exactly those characters as extension. */
  lemma ExtensionOfTail(path: string, tail: string)
    requires EndsWith(path, tail) && |tail| >= 2 && tail[0] == '.'
    requires forall i :: 1 <= i < |tail| ==> tail[i] != '.' && !IsSeparator(tail[i])
    ensures Extension(path) == tail
  {
    FileNameOfTail(path, tail);
    assert '.' !in tail[1..] by {
      assert forall i :: 0 <= i < |tail| - 1 ==> tail[1..][i] == tail[i + 1];
    }
    NameExtensionOfTail(FileName(path), tail);
  }
}
