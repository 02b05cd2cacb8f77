/** The operating-system calls the installers make, recorded in the order
    they are made. A recorded call is an attempt: whether it succeeded is an
    input of the operation that records it. */
module Effects {

  /** A string value written under the key
      `HKLM\SOFTWARE\Microsoft\Windows NT\CurrentVersion\Fonts`, where both
      programs register fonts: display name to file name. */
  datatype RegistryValue = RegistryValue(name: string, data: string)

  datatype Effect =
    | CopyFile(source: string, destination: string)
    | SetRegistryValue(value: RegistryValue)
    | AddFontResource(path: string)
    | BroadcastFontChange

  /** The registry values written by a trace, in order. */
  function Registrations(effects: seq<Effect>): seq<RegistryValue> {
    if effects == [] then []
    else
      var last := effects[|effects| - 1];
      Registrations(effects[..|effects| - 1]) + (if last.SetRegistryValue? then [last.value] else [])
  }

  /** The copies attempted by a trace, in order. */
  function Copies(effects: seq<Effect>): seq<Effect> {
    if effects == [] then []
    else
      var last := effects[|effects| - 1];
      Copies(effects[..|effects| - 1]) + (if last.CopyFile? then [last] else [])
  }

  /** Recording one more call adds its registry value or its copy, if it is
      one, at the end. */
  lemma RecordOne(a: seq<Effect>, e: Effect)
    ensures Registrations(a + [e]) == Registrations(a) + if e.SetRegistryValue? then [e.value] else []
    ensures Copies(a + [e]) == Copies(a) + if e.CopyFile? then [e] else []
  {
    assert (a + [e])[..|a|] == a;
  }

  lemma {:induction false} RegistrationsAppend(a: seq<Effect>, b: seq<Effect>)
    ensures Registrations(a + b) == Registrations(a) + Registrations(b)
  {
    if b == [] {
      assert a + b == a;
    } else {
      assert (a + b)[..|a + b| - 1] == a + b[..|b| - 1];
      assert (a + b)[|a + b| - 1] == b[|b| - 1];
      RegistrationsAppend(a, b[..|b| - 1]);
    }
  }

  lemma {:induction false} CopiesAppend(a: seq<Effect>, b: seq<Effect>)
    ensures Copies(a + b) == Copies(a) + Copies(b)
  {
    if b == [] {
      assert a + b == a;
    } else {
      assert (a + b)[..|a + b| - 1] == a + b[..|b| - 1];
      assert (a + b)[|a + b| - 1] == b[|b| - 1];
      CopiesAppend(a, b[..|b| - 1]);
    }
  }
}
