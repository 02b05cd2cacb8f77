/** Character and string helpers shared by both installers: prefix and suffix
    tests, single-character search, ASCII case folding, joining and splitting
    lines. Strings are sequences of characters; no culture-specific casing. */
module Text {

  datatype Option<+T> = None | Some(value: T)

  predicate StartsWith(s: string, prefix: string) {
    |prefix| <= |s| && s[..|prefix|] == prefix
  }

  predicate EndsWith(s: string, suffix: string) {
    |suffix| <= |s| && s[|s| - |suffix|..] == suffix
  }

  /** Index of the first occurrence of `c` in `s`. */
  function IndexOf(s: string, c: char): (r: Option<nat>)
    ensures r.None? <==> c !in s
    ensures r.Some? ==> r.value < |s| && s[r.value] == c && c !in s[..r.value]
  {
    if s == [] then None
    else if s[0] == c then Some(0)
    else match IndexOf(s[1..], c)
      case None => None
      case Some(i) =>
        assert s[1..][..i] == s[1..i + 1];
        assert s[..i + 1] == [s[0]] + s[1..i + 1];
        Some(i + 1)
  }

  /** Index of the last occurrence of `c` in `s` (the single-character
      `find_last_of` of a wide string, or `LastIndexOf` of a .NET string). */
  function LastIndexOf(s: string, c: char): (r: Option<nat>)
    ensures r.None? <==> c !in s
    ensures r.Some? ==> r.value < |s| && s[r.value] == c && c !in s[r.value + 1..]
  {
    if s == [] then None
    else if s[|s| - 1] == c then Some(|s| - 1)
    else match LastIndexOf(s[..|s| - 1], c)
      case None =>
        assert s == s[..|s| - 1] + [s[|s| - 1]];
        None
      case Some(i) =>
        assert s[i + 1..] == s[..|s| - 1][i + 1..] + [s[|s| - 1]];
        Some(i)
  }

  /** The first occurrence is found wherever the character is placed after a
      stretch that does not hold it. */
  lemma IndexOfAfter(a: string, c: char, t: string)
    requires c !in a
    ensures IndexOf(a + [c] + t, c) == Some(|a|)
  {
    var s := a + [c] + t;
    assert s[|a|] == c && s[..|a|] == a;
  }

  /** The last occurrence is found wherever the character is placed before a
      stretch that does not hold it. */
  lemma LastIndexOfBefore(a: string, c: char, t: string)
    requires c !in t
    ensures LastIndexOf(a + [c] + t, c) == Some(|a|)
  {
    var s := a + [c] + t;
    assert s[|a|] == c && s[|a| + 1..] == t;
  }

  /** ASCII lower-casing of one character: no upper-case ASCII letter is
      left, and only such letters are changed. */
  function LowerChar(c: char): (r: char)
    ensures !('A' <= r <= 'Z')
    ensures r != c ==> 'A' <= c <= 'Z'
  {
    if 'A' <= c <= 'Z' then (c as int + 32) as char else c
  }

  /** ASCII lower-casing of a string, character by character. */
  function Lower(s: string): string {
    seq(|s|, i requires 0 <= i < |s| => LowerChar(s[i]))
  }

  /** Ordinal comparison that ignores ASCII case. */
  predicate EqualsIgnoreCase(a: string, b: string) {
    Lower(a) == Lower(b)
  }

  predicate EndsWithIgnoreCase(s: string, suffix: string) {
    |suffix| <= |s| && EqualsIgnoreCase(s[|s| - |suffix|..], suffix)
  }

  /** `string.Join(sep, parts)`: the parts with `sep` between neighbours and
      nothing before the first or after the last. */
  function Join(sep: string, parts: seq<string>): (r: string)
  {
    if parts == [] then ""
    else if |parts| == 1 then parts[0]
    else parts[0] + sep + Join(sep, parts[1..])
  }

  /** Text in which every line is followed by a line feed, as a file written
      line by line. */
  function Unlines(lines: seq<string>): (r: string)
  {
    if lines == [] then "" else lines[0] + "\n" + Unlines(lines[1..])
  }

  /** The lines of a text, split at line feeds; a final line feed does not
      start another line, as a file read line by line. */
  function Lines(t: string): (r: seq<string>)
    decreases |t|
  {
    if t == [] then []
    else match IndexOf(t, '\n')
      case None => [t]
      case Some(i) => [t[..i]] + Lines(t[i + 1..])
  }

  /** Reading back line by line what was written line by line gives the same
      lines, as long as no line holds a line feed. */
  lemma {:induction false} LinesUnlines(lines: seq<string>)
    requires forall k :: 0 <= k < |lines| ==> '\n' !in lines[k]
    ensures Lines(Unlines(lines)) == lines
  {
    if lines != [] {
      var rest := Unlines(lines[1..]);
      IndexOfAfter(lines[0], '\n', rest);
      var t := Unlines(lines);
      assert t == lines[0] + ['\n'] + rest;
      assert t[..|lines[0]|] == lines[0];
      assert t[|lines[0]| + 1..] == rest;
      LinesUnlines(lines[1..]);
    }
  }
}
