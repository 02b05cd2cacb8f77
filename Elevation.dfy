/** How both programs hand their command-line arguments to the elevated
    instance they start: every argument is put between double quotes. The
    native program follows every quoted argument with a space; the managed
    program puts one space between neighbours and none at the end.

    `ParseQuoted` is a reference reading of that format (a quoted argument,
    then either the end or one space and more arguments); it is what the two
    round-trip lemmas below invert. */
module Elevation {
  import opened Text

  function Quote(arg: string): string {
    "\"" + arg + "\""
  }

  /** The arguments the native program forwards: all but the program path
      in `argv[0]`. */
  function Forwarded(argv: seq<string>): seq<string> {
    if argv == [] then [] else argv[1..]
  }

  /** The native parameter string: each argument quoted and followed by one
      space. */
  function NativeParams(args: seq<string>): (r: string)
    ensures r == [] <==> args == []
  {
    if args == [] then "" else Quote(args[0]) + " " + NativeParams(args[1..])
  }

  /** The managed argument string: the quoted arguments joined by single
      spaces. */
  function ManagedArguments(args: seq<string>): (r: string)
    ensures r == [] <==> args == []
    ensures args != [] ==> r[0] == '"'
  {
    Join(" ", QuoteAll(args))
  }

  function QuoteAll(args: seq<string>): seq<string> {
    seq(|args|, i requires 0 <= i < |args| => Quote(args[i]))
  }

  /** With more than one argument, the first is quoted and followed by a
      space and the string of the others. */
  lemma ManagedArgumentsCons(args: seq<string>)
    requires |args| > 1
    ensures ManagedArguments(args) == Quote(args[0]) + " " + ManagedArguments(args[1..])
  {
    assert QuoteAll(args)[1..] == QuoteAll(args[1..]);
  }

  /** Sum of the lengths of the arguments. */
  function TotalLength(args: seq<string>): nat {
    if args == [] then 0 else |args[0]| + TotalLength(args[1..])
  }

  /** Builds the parameter string of the native relaunch with `RelaunchAsAdmin`'s
      `for` loop over `argv[1..argc-1]`, and gives the exit status the native
      program then ends with: 0 when the elevated instance was started, 1
      otherwise. */
  method RelaunchAsAdmin(argv: seq<string>, launched: bool) returns (params: string, exitCode: int)
    ensures params == NativeParams(Forwarded(argv))
    ensures exitCode == if launched then 0 else 1
  {
    params := "";
    var i := 1;
    ghost var forwarded := Forwarded(argv);
    while i < |argv|
      invariant 1 <= i && i - 1 <= |forwarded|
      invariant params == NativeParams(forwarded[..i - 1])
    {
      NativeParamsAppend(forwarded[..i - 1], argv[i]);
      assert forwarded[..i] == forwarded[..i - 1] + [argv[i]];
      params := params + "\"";
      params := params + argv[i];
      params := params + "\" ";
      i := i + 1;
    }
    assert forwarded[..|forwarded|] == forwarded;
    exitCode := if launched then 0 else 1;
  }

  /** Appending one more argument appends its quoted form and a space. */
  lemma {:induction false} NativeParamsAppend(args: seq<string>, a: string)
    ensures NativeParams(args + [a]) == NativeParams(args) + Quote(a) + " "
  {
    if args != [] {
      assert (args + [a])[1..] == args[1..] + [a];
      NativeParamsAppend(args[1..], a);
    }
  }

  /** Every forwarded argument costs its own length plus three characters:
      two quotes and a space. */
  lemma {:induction false} NativeParamsLength(args: seq<string>)
    ensures |NativeParams(args)| == TotalLength(args) + 3 * |args|
  {
    if args != [] {
      NativeParamsLength(args[1..]);
    }
  }

  /** The managed string is the native one without its trailing space. */
  lemma {:induction false} NativeIsManagedWithTrailingSpace(args: seq<string>)
    ensures args == [] ==> NativeParams(args) == ManagedArguments(args) == ""
    ensures args != [] ==> NativeParams(args) == ManagedArguments(args) + " "
  {
    if |args| > 1 {
      ManagedArgumentsCons(args);
      NativeIsManagedWithTrailingSpace(args[1..]);
    }
  }

  /** The managed string is two characters longer per argument than the
      arguments, plus one space between each pair of neighbours. */
  lemma ManagedArgumentsLength(args: seq<string>)
    requires args != []
    ensures |ManagedArguments(args)| == TotalLength(args) + 3 * |args| - 1
  {
    NativeIsManagedWithTrailingSpace(args);
    NativeParamsLength(args);
  }

  /** Reads a sequence of quoted arguments separated by single spaces, with at
      most one space after the last; `None` for any other text. */
  function ParseQuoted(s: string): Option<seq<string>>
    decreases |s|
  {
    if s == [] then Some([])
    else if s[0] != '"' then None
    else match IndexOf(s[1..], '"')
      case None => None
      case Some(j) =>
        var arg := s[1..j + 1];
        var rest := s[j + 2..];
        if rest == [] then Some([arg])
        else if rest[0] != ' ' then None
        else match ParseQuoted(rest[1..])
          case None => None
          case Some(more) => Some([arg] + more)
  }

  predicate NoQuote(args: seq<string>) {
    forall i :: 0 <= i < |args| ==> '"' !in args[i]
  }

  /** What the reader sees at the front of a quoted argument: the opening
      quote, the argument up to the closing quote, and the text after it. */
  lemma ParseQuotedFront(arg: string, t: string)
    requires '"' !in arg
    ensures var s := Quote(arg) + t;
      s != [] && s[0] == '"' && IndexOf(s[1..], '"') == Some(|arg|) &&
      s[1..|arg| + 1] == arg && s[|arg| + 2..] == t
  {
    var s := Quote(arg) + t;
    assert s[1..] == arg + ['"'] + t;
    IndexOfAfter(arg, '"', t);
  }

  /** A single quoted argument reads back as that argument. */
  lemma ParseQuotedLast(arg: string)
    requires '"' !in arg
    ensures ParseQuoted(Quote(arg)) == Some([arg])
  {
    ParseQuotedFront(arg, "");
    assert Quote(arg) + "" == Quote(arg);
  }

  /** A quoted argument followed by a space is read off the front of the
      text, and reading goes on after the space. */
  lemma ParseQuotedNext(arg: string, rest: string)
    requires '"' !in arg
    ensures ParseQuoted(Quote(arg) + " " + rest) ==
      match ParseQuoted(rest)
      case None => None
      case Some(more) => Some([arg] + more)
  {
    ParseQuotedFront(arg, " " + rest);
    assert Quote(arg) + " " + rest == Quote(arg) + (" " + rest);
    assert (" " + rest)[1..] == rest;
  }

  /** The native parameter string reads back as the forwarded arguments, as
      long as none of them holds a double quote. */
  lemma {:induction false} NativeParamsRoundTrip(args: seq<string>)
    requires NoQuote(args)
    ensures ParseQuoted(NativeParams(args)) == Some(args)
  {
    if args != [] {
      ParseQuotedNext(args[0], NativeParams(args[1..]));
      NativeParamsRoundTrip(args[1..]);
      assert [args[0]] + args[1..] == args;
    }
  }

  /** A single quoted argument reads back as itself. */
  lemma ManagedArgumentsSingle(args: seq<string>)
    requires |args| == 1 && NoQuote(args)
    ensures ParseQuoted(ManagedArguments(args)) == Some(args)
  {
    ParseQuotedLast(args[0]);
    assert ManagedArguments(args) == Quote(args[0]);
    assert args == [args[0]];
  }

  /** When the string of the other arguments reads back, so does the whole
      string. */
  lemma ManagedArgumentsStep(args: seq<string>)
    requires |args| > 1 && '"' !in args[0]
    requires ParseQuoted(ManagedArguments(args[1..])) == Some(args[1..])
    ensures ParseQuoted(ManagedArguments(args)) == Some(args)
  {
    ManagedArgumentsCons(args);
    ParseQuotedNext(args[0], ManagedArguments(args[1..]));
    assert [args[0]] + args[1..] == args;
  }

  /** The managed argument string reads back as the arguments, as long as
      none of them holds a double quote. */
  lemma {:induction false} ManagedArgumentsRoundTrip(args: seq<string>)
    requires NoQuote(args)
    ensures ParseQuoted(ManagedArguments(args)) == Some(args)
  {
    if |args| == 1 {
      ManagedArgumentsSingle(args);
    } else if |args| > 1 {
      assert NoQuote(args[1..]) by {
        assert forall i :: 0 <= i < |args| - 1 ==> args[1..][i] == args[i + 1];
      }
      ManagedArgumentsRoundTrip(args[1..]);
      ManagedArgumentsStep(args);
    }
  }
}
