/** `TypeDocPluginStringOption`: an option whose value is a string. */
module TypeDocPluginStringOption {
  import opened JsValues
  import opened OptionBase

  /** The declaration: name, help and default as stored, with no type tag. */
  function AddToApplication(o: Base<string>): (d: Declaration<string>)
    ensures d.name == o.nameInCommandLine && d.help == o.helpInCommandLine
    ensures d.defaultValue == o.defaultValue
    ensures d.paramType.Absent?
  {
    Declaration(o.nameInCommandLine, o.helpInCommandLine, o.defaultValue, Absent)
  }

  /** A non-empty raw value becomes the value exactly as given; an empty one
      keeps the value. */
  function ReadValueFromApplication(o: Base<string>, host: Host): (r: Base<string>)
    ensures SameIdentity(o, r)
    ensures host(o.nameInCommandLine) != "" ==> r.value == host(o.nameInCommandLine)
    ensures host(o.nameInCommandLine) == "" ==> r == o
  {
    var raw := host(o.nameInCommandLine);
    Update(o, if raw != "" then Present(raw) else Absent)
  }

  /** After a read the value is the previous one or the host's raw value,
      never the empty string unless that is where it already was. */
  lemma ReadNeverEmpties(o: Base<string>, host: Host)
    ensures ReadValueFromApplication(o, host).value in {o.value, host(o.nameInCommandLine)}
    ensures ReadValueFromApplication(o, host).value == "" ==> o.value == ""
  {
  }

  /** An explicit empty string cannot override the default. */
  lemma EmptyCannotOverrideDefault(name: string, help: string, defaultValue: string, host: Host)
    requires host(name) == ""
    ensures Val(ReadValueFromApplication(New(name, help, defaultValue), host)) == defaultValue
  {
  }

  /** Reading the same host twice is reading it once. */
  lemma ReadIdempotent(o: Base<string>, host: Host)
    ensures ReadValueFromApplication(ReadValueFromApplication(o, host), host) == ReadValueFromApplication(o, host)
  {
  }

  /** A read never changes the declaration. */
  lemma ReadKeepsDeclaration(o: Base<string>, host: Host)
    ensures AddToApplication(ReadValueFromApplication(o, host)) == AddToApplication(o)
  {
  }
}
