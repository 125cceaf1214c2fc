/** `PluginOptionBase<T>`, the later base class. Its fields are those of
    `OptionBase.Base`, but `value` is public: callers may assign it directly. */
module PluginOptionBase {
  import opened OptionBase

  /** The `name` getter. */
  function Name<T>(o: Base<T>): string {
    o.nameInCommandLine
  }

  /** A direct assignment to the public `value` field; nothing is checked. */
  function AssignValue<T(==)>(o: Base<T>, v: T): (r: Base<T>)
    ensures SameIdentity(o, r)
    ensures Val(r) == v
  {
    o.(value := v)
  }

  /** The constructor stores name, help and default as given, starts at the
      default, and the getter yields the constructor's name. */
  lemma NewStoresFields<T>(name: string, help: string, defaultValue: T)
    ensures var o := New(name, help, defaultValue);
            && Name(o) == name && o.helpInCommandLine == help
            && o.defaultValue == defaultValue && Val(o) == defaultValue
  {
  }

  /** An assignment never changes the name the option is looked up by. */
  lemma AssignKeepsName<T>(o: Base<T>, v: T)
    ensures Name(AssignValue(o, v)) == Name(o)
  {
  }
}
