/** `TypeDocPluginNumberOption`: an option whose value is an integer within
    inclusive bounds, read from the host as a string. */
module TypeDocPluginNumberOption {
  import opened JsValues
  import opened OptionBase
  import opened Ecma262

  datatype NumberOption = NumberOption(base: Base<int>, minValue: int, maxValue: int)

  predicate InBounds(o: NumberOption, n: int) {
    o.minValue <= n <= o.maxValue
  }

  /** The option's bounds and identity agree. */
  predicate SameSettings(a: NumberOption, b: NumberOption) {
    SameIdentity(a.base, b.base) && a.minValue == b.minValue && a.maxValue == b.maxValue
  }

  /** The constructor. The default is not checked against the bounds. */
  function New(name: string, help: string, defaultValue: int, minValue: int, maxValue: int): (o: NumberOption)
    ensures o.base.value == o.base.defaultValue == defaultValue
    ensures o.base.nameInCommandLine == name && o.base.helpInCommandLine == help
    ensures o.minValue == minValue && o.maxValue == maxValue
  {
    NumberOption(OptionBase.New(name, help, defaultValue), minValue, maxValue)
  }

  /** The declaration: name, help and default; no type tag and no bounds. */
  function AddToApplication(o: NumberOption): (d: Declaration<int>)
    ensures d.name == o.base.nameInCommandLine && d.help == o.base.helpInCommandLine
    ensures d.defaultValue == o.base.defaultValue
    ensures d.paramType.Absent?
  {
    Declaration(o.base.nameInCommandLine, o.base.helpInCommandLine, o.base.defaultValue, Absent)
  }

  /** A non-empty raw string whose `parseInt(_, 10)` is a number within the
      inclusive bounds becomes the value; anything else keeps the value. */
  function ReadValueFromApplication(o: NumberOption, host: Host): (r: NumberOption)
    ensures SameSettings(o, r)
    ensures r.base.value == o.base.value
              || (InBounds(o, r.base.value) && ParseInt(host(o.base.nameInCommandLine)) == Present(r.base.value))
    ensures ParseInt(host(o.base.nameInCommandLine)).Absent? ==> r == o
    ensures forall n :: ParseInt(host(o.base.nameInCommandLine)) == Present(n) ==>
              (InBounds(o, n) ==> r.base.value == n) && (!InBounds(o, n) ==> r == o)
  {
    var raw := host(o.base.nameInCommandLine);
    var accepted :=
      if raw != "" then
        match ParseInt(raw)
        case Present(n) => if n >= o.minValue && n <= o.maxValue then Present(n) else Absent
        case Absent => Absent
      else Absent;
    o.(base := Update(o.base, accepted))
  }

  /** An option whose value lies within its bounds keeps it there. */
  lemma ReadKeepsInBounds(o: NumberOption, host: Host)
    requires InBounds(o, o.base.value)
    ensures InBounds(ReadValueFromApplication(o, host), ReadValueFromApplication(o, host).base.value)
  {
  }

  /** An empty raw string leaves the option alone. */
  lemma EmptyKeepsValue(o: NumberOption, host: Host)
    requires host(o.base.nameInCommandLine) == ""
    ensures ReadValueFromApplication(o, host) == o
  {
  }

  /** Reading the same host twice is reading it once. */
  lemma ReadIdempotent(o: NumberOption, host: Host)
    ensures ReadValueFromApplication(ReadValueFromApplication(o, host), host) == ReadValueFromApplication(o, host)
  {
  }

  /** A read never changes the declaration. */
  lemma ReadKeepsDeclaration(o: NumberOption, host: Host)
    ensures AddToApplication(ReadValueFromApplication(o, host)) == AddToApplication(o)
  {
  }

  /** The integer written out in decimal, with a non-digit tail or none, is
      accepted exactly when it lies within the bounds. */
  lemma ReadOfDecimal(o: NumberOption, host: Host, n: int, rest: string)
    requires |rest| == 0 || !IsDigit(rest[0])
    requires host(o.base.nameInCommandLine) == ToDecimal(n) + rest
    ensures InBounds(o, n) ==> ReadValueFromApplication(o, host).base.value == n
    ensures !InBounds(o, n) ==> ReadValueFromApplication(o, host) == o
  {
    ParseIntIgnoresSuffix(n, rest);
  }

  /** Bounds 0..256, default 16: "256" and "12abc" are accepted, "257", "-1"
      and "abc" are not. */
  lemma BoundaryExamples(host: Host)
    ensures var o := New("n", "h", 16, 0, 256);
            && (host("n") == "256" ==> ReadValueFromApplication(o, host).base.value == 256)
            && (host("n") == "12abc" ==> ReadValueFromApplication(o, host).base.value == 12)
            && (host("n") in {"257", "-1", "abc"} ==> ReadValueFromApplication(o, host).base.value == 16)
  {
    var o := New("n", "h", 16, 0, 256);
    assert NatDigits(2) == "2" && NatDigits(1) == "1" && NatDigits(7) == "7" && NatDigits(6) == "6";
    assert NatDigits(25) == "25";
    assert NatDigits(256) == "256" && NatDigits(257) == "257";
    assert NatDigits(12) == "12";
    if host("n") == "256" {
      ReadOfDecimal(o, host, 256, "");
    } else if host("n") == "12abc" {
      ReadOfDecimal(o, host, 12, "abc");
    } else if host("n") == "257" {
      ReadOfDecimal(o, host, 257, "");
    } else if host("n") == "-1" {
      ReadOfDecimal(o, host, -1, "");
    } else if host("n") == "abc" {
      NoDigitIsNaN("abc");
    }
  }
}
