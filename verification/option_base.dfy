/** The fields every option has, and the declaration record handed to the
    host's option registry. Both generations of option classes
    (`TypeDocPluginOptionBase` and `PluginOptionBase`) hold the same four
    fields, so they share this datatype. */
module OptionBase {
  import opened JsValues

  /** The host's lookup of an option's resolved value, already turned into a
      string by JavaScript's `String(...)`. An option the host holds no value
      for reads back as "undefined". */
  type Host = string -> string

  /** The host's parameter-type tag; only the number option sets one. */
  datatype ParameterType = Number

  /** The object passed to the registry's `addDeclaration`. A `paramType` of
      `Absent` is a declaration without a `type` field. */
  datatype Declaration<D> = Declaration(name: string, help: string, defaultValue: D, paramType: Nullable<ParameterType>)

  /** Name, help and default are fixed at construction; `value` is the
      option's current value. */
  datatype Base<T> = Base(nameInCommandLine: string, helpInCommandLine: string, defaultValue: T, value: T)

  /** Name, help and default agree: the part of an option that nothing but
      the constructor sets. */
  predicate SameIdentity<T(==)>(a: Base<T>, b: Base<T>) {
    && a.nameInCommandLine == b.nameInCommandLine
    && a.helpInCommandLine == b.helpInCommandLine
    && a.defaultValue == b.defaultValue
  }

  /** The constructor: stores name, help and default as given and starts at
      the default. */
  function New<T>(name: string, help: string, defaultValue: T): (o: Base<T>)
    ensures o.value == o.defaultValue
    ensures o.nameInCommandLine == name && o.helpInCommandLine == help && o.defaultValue == defaultValue
  {
    Base(name, help, defaultValue, defaultValue)
  }

  /** The `val` getter. */
  function Val<T>(o: Base<T>): T {
    o.value
  }

  /** Before any read the getter yields the default. */
  lemma ValAfterNew<T>(name: string, help: string, defaultValue: T)
    ensures Val(New(name, help, defaultValue)) == defaultValue
  {
  }

  /** A guarded update, the shape of every read: an accepted value replaces
      `value`, no accepted value keeps the option exactly as it was. */
  function Update<T(==)>(o: Base<T>, accepted: Nullable<T>): (r: Base<T>)
    ensures SameIdentity(o, r)
    ensures accepted.Absent? ==> r == o
    ensures accepted.Present? ==> r.value == accepted.value
  {
    match accepted
    case Absent => o
    case Present(v) => o.(value := v)
  }
}
