/** `TypeDocPluginBooleanOption`: an option whose value is a boolean. */
module TypeDocPluginBooleanOption {
  import opened JsValues
  import opened OptionBase
  import Ascii

  /** Spells "true" in any mixture of upper and lower case. */
  predicate SpellsTrue(s: string) {
    && |s| == 4
    && (s[0] == 't' || s[0] == 'T')
    && (s[1] == 'r' || s[1] == 'R')
    && (s[2] == 'u' || s[2] == 'U')
    && (s[3] == 'e' || s[3] == 'E')
  }

  /** `s.toLowerCase() === "true"` is a case-insensitive comparison with "true". */
  lemma LowerIsTrueIff(s: string)
    ensures Ascii.ToLower(s) == "true" <==> SpellsTrue(s)
  {
    if |s| == 4 {
      Ascii.ToLowerCharEq(s[0], 't');
      Ascii.ToLowerCharEq(s[1], 'r');
      Ascii.ToLowerCharEq(s[2], 'u');
      Ascii.ToLowerCharEq(s[3], 'e');
      if SpellsTrue(s) {
        assert Ascii.ToLower(s) == "true";
      }
    }
  }

  /** The declaration: name, help and default, with no type tag. */
  function AddToApplication(o: Base<bool>): (d: Declaration<bool>)
    ensures d.name == o.nameInCommandLine && d.help == o.helpInCommandLine
    ensures d.defaultValue == o.defaultValue
    ensures d.paramType.Absent?
  {
    Declaration(o.nameInCommandLine, o.helpInCommandLine, o.defaultValue, Absent)
  }

  /** An empty raw value leaves the option alone; any other raw value sets it
      to whether it spells "true", ignoring case. */
  function ReadValueFromApplication(o: Base<bool>, host: Host): (r: Base<bool>)
    ensures SameIdentity(o, r)
    ensures host(o.nameInCommandLine) == "" ==> r == o
    ensures host(o.nameInCommandLine) != "" ==> (r.value <==> SpellsTrue(host(o.nameInCommandLine)))
  {
    var raw := host(o.nameInCommandLine);
    LowerIsTrueIff(raw);
    Update(o, if raw != "" then Present(Ascii.ToLower(raw) == "true") else Absent)
  }

  /** Reading the same host twice is reading it once. */
  lemma ReadIdempotent(o: Base<bool>, host: Host)
    ensures ReadValueFromApplication(ReadValueFromApplication(o, host), host) == ReadValueFromApplication(o, host)
  {
  }

  /** A read never changes the declaration. */
  lemma ReadKeepsDeclaration(o: Base<bool>, host: Host)
    ensures AddToApplication(ReadValueFromApplication(o, host)) == AddToApplication(o)
  {
  }

  /** "TRUE" and "True" set true; "false", "yes" and the "undefined" of an
      absent host value set false. */
  lemma ReadExamples(o: Base<bool>, host: Host)
    ensures host(o.nameInCommandLine) in {"true", "TRUE", "True"} ==> ReadValueFromApplication(o, host).value
    ensures host(o.nameInCommandLine) in {"false", "yes", "undefined"} ==> !ReadValueFromApplication(o, host).value
  {
  }
}
