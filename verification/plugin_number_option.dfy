/** `PluginNumberOption`: the later number option, which receives a typed
    number from the host instead of a string. */
module PluginNumberOption {
  import opened JsValues
  import opened OptionBase
  import N = TypeDocPluginNumberOption
  import PluginOptionBase
  import Ecma262

  /** The host's lookup of a number option: `Absent` is NaN, and also stands for
      an undefined value, which fails the same bounds comparisons. */
  type NumberHost = string -> Nullable<int>

  /** The declaration: type tag Number, name, help and default; no bounds. */
  function AddToApplication(o: N.NumberOption): (d: Declaration<int>)
    ensures d.name == o.base.nameInCommandLine && d.help == o.base.helpInCommandLine
    ensures d.defaultValue == o.base.defaultValue
    ensures d.paramType == Present(ParameterType.Number)
  {
    Declaration(o.base.nameInCommandLine, o.base.helpInCommandLine, o.base.defaultValue, Present(ParameterType.Number))
  }

  /** A host number that is not NaN and lies within the inclusive bounds
      becomes the value; anything else keeps the value. */
  function ReadValueFromApplication(o: N.NumberOption, host: NumberHost): (r: N.NumberOption)
    ensures N.SameSettings(o, r)
    ensures r.base.value == o.base.value || N.InBounds(o, r.base.value)
    ensures host(o.base.nameInCommandLine).Absent? ==> r == o
    ensures forall n :: host(o.base.nameInCommandLine) == Present(n) ==>
              (N.InBounds(o, n) ==> r.base.value == n) && (!N.InBounds(o, n) ==> r == o)
  {
    var accepted :=
      match host(o.base.nameInCommandLine)
      case Present(n) => if n >= o.minValue && n <= o.maxValue then Present(n) else Absent
      case Absent => Absent;
    o.(base := Update(o.base, accepted))
  }

  /** Reading the same host twice is reading it once. */
  lemma ReadIdempotent(o: N.NumberOption, host: NumberHost)
    ensures ReadValueFromApplication(ReadValueFromApplication(o, host), host) == ReadValueFromApplication(o, host)
  {
  }

  /** An option whose value lies within its bounds keeps it there. */
  lemma ReadKeepsInBounds(o: N.NumberOption, host: NumberHost)
    requires N.InBounds(o, o.base.value)
    ensures N.InBounds(ReadValueFromApplication(o, host), ReadValueFromApplication(o, host).base.value)
  {
  }

  /** The two generations agree: the string-reading option behaves as this
      one would if the host handed it `parseInt` of the string. */
  lemma GenerationsAgree(o: N.NumberOption, host: Host)
    ensures N.ReadValueFromApplication(o, host)
            == ReadValueFromApplication(o, (name: string) => Ecma262.ParseInt(host(name)))
  {
  }

  /** The declarations differ only in the type tag. */
  lemma DeclarationsDifferInTag(o: N.NumberOption)
    ensures AddToApplication(o) == N.AddToApplication(o).(paramType := Present(ParameterType.Number))
  {
  }

  /** The public field bypasses the bounds: an assignment can leave the
      option outside them, which no read ever does. The later generation
      reuses the earlier one's constructor, so its options are built by
      `TypeDocPluginNumberOption.New`. */
  lemma AssignmentBypassesBounds()
    ensures var o := N.New("n", "h", 16, 0, 256);
            !N.InBounds(o, o.(base := PluginOptionBase.AssignValue(o.base, 300)).base.value)
  {
  }
}
