/** `TypeDocPluginEnumOption<T>`: an option whose value is one of a fixed set
    of values, each named on the command line by a string key. */
module TypeDocPluginEnumOption {
  import opened JsValues
  import opened OptionBase
  import Ascii

  /** No key occurs twice. */
  predicate DistinctKeys<T>(m: seq<(string, Nullable<T>)>) {
    forall i, j :: 0 <= i < j < |m| ==> m[i].0 != m[j].0
  }

  /** The entries of a JavaScript `Map<string, T>` in insertion order; a Map
      holds each key once. A mapped `Absent` is a null or undefined value. */
  type MapEntries<T> = m: seq<(string, Nullable<T>)> | DistinctKeys(m) witness []

  datatype EnumOption<T> = EnumOption(base: Base<T>, stringToValueMap: MapEntries<T>)

  /** The constructor: the base fields as usual, and the map stored as given. */
  function New<T>(name: string, help: string, defaultValue: T, stringToValueMap: MapEntries<T>): (o: EnumOption<T>)
    ensures o.base.value == o.base.defaultValue == defaultValue
    ensures o.base.nameInCommandLine == name && o.base.helpInCommandLine == help
    ensures o.stringToValueMap == stringToValueMap
  {
    EnumOption(OptionBase.New(name, help, defaultValue), stringToValueMap)
  }

  /** `Map.prototype.has` and `get` together: `Absent` when the key is absent,
      otherwise `Present` of the value stored under it. */
  function Get<T>(m: MapEntries<T>, key: string): (r: Nullable<Nullable<T>>)
    ensures r.Absent? <==> forall i :: 0 <= i < |m| ==> m[i].0 != key
    ensures forall i :: 0 <= i < |m| && m[i].0 == key ==> r == Present(m[i].1)
    decreases |m|
  {
    if |m| == 0 then Absent
    else if m[0].0 == key then Present(m[0].1)
    else
      var r := Get(m[1..], key);
      assert forall i :: 1 <= i < |m| ==> m[i] == m[1..][i - 1];
      r
  }

  /** Entry `i` of `m` is `(key, v)`, and no later entry maps to `v`. */
  predicate IsLastMatch<T(==)>(m: seq<(string, Nullable<T>)>, i: int, key: string, v: T) {
    0 <= i < |m| && m[i] == (key, Present(v)) && forall j :: i < j < |m| ==> m[j].1 != Present(v)
  }

  /** The key of the last entry, in scan order, whose value is `v`; `Absent`
      when no entry maps to `v`. */
  function LastKeyFor<T(==)>(m: seq<(string, Nullable<T>)>, v: T): (k: Nullable<string>)
    ensures k.Absent? <==> forall i :: 0 <= i < |m| ==> m[i].1 != Present(v)
    ensures k.Present? ==> exists i :: IsLastMatch(m, i, k.value, v)
  {
    if |m| == 0 then Absent
    else if m[|m| - 1].1 == Present(v) then
      assert IsLastMatch(m, |m| - 1, m[|m| - 1].0, v);
      Present(m[|m| - 1].0)
    else
      var prefix := m[..|m| - 1];
      var k := LastKeyFor(prefix, v);
      assert k.Present? ==> exists i :: IsLastMatch(m, i, k.value, v) by {
        if k.Present? {
          var i :| IsLastMatch(prefix, i, k.value, v);
          assert IsLastMatch(m, i, k.value, v);
        }
      }
      k
  }

  /** The scan as the code performs it: a forward pass over the entries that
      overwrites the candidate key at every entry mapping to `v`, with no
      early exit. It finds the same key as `LastKeyFor`. */
  method ScanDefaultKey<T(==)>(m: seq<(string, Nullable<T>)>, v: T) returns (key: Nullable<string>)
    ensures key == LastKeyFor(m, v)
  {
    key := Absent;
    for i := 0 to |m|
      invariant key == LastKeyFor(m[..i], v)
    {
      assert m[..i + 1][..i] == m[..i];
      if m[i].1 == Present(v) {
        key := Present(m[i].0);
      }
    }
    assert m[..|m|] == m;
  }

  /** The declaration: name, help and, as its default, the key whose value is
      the option's default (the last such key); no default when no key maps
      to it. The map itself is not declared. */
  function AddToApplication<T(==)>(o: EnumOption<T>): (d: Declaration<Nullable<string>>)
    ensures d.name == o.base.nameInCommandLine && d.help == o.base.helpInCommandLine
    ensures d.paramType.Absent?
    ensures d.defaultValue.Absent? <==>
              forall i :: 0 <= i < |o.stringToValueMap| ==> o.stringToValueMap[i].1 != Present(o.base.defaultValue)
    ensures d.defaultValue.Present? ==>
              exists i :: 0 <= i < |o.stringToValueMap|
                          && o.stringToValueMap[i] == (d.defaultValue.value, Present(o.base.defaultValue))
  {
    Declaration(o.base.nameInCommandLine, o.base.helpInCommandLine,
                LastKeyFor(o.stringToValueMap, o.base.defaultValue), Absent)
  }

  /** When several keys map to the default, the declared one is the last. */
  lemma DeclaredDefaultIsLastMatch<T>(o: EnumOption<T>, i: nat, j: nat)
    requires i < j < |o.stringToValueMap|
    requires o.stringToValueMap[i].1 == o.stringToValueMap[j].1 == Present(o.base.defaultValue)
    ensures AddToApplication(o).defaultValue != Present(o.stringToValueMap[i].0)
  {
  }

  /** `Object.entries` of a JavaScript `Map` object: a Map keeps its entries
      in internal slots, not as enumerable properties, so there are none. */
  function ObjectEntries<T>(m: MapEntries<T>): seq<(string, Nullable<T>)> {
    []
  }

  /** The declaration as the code builds it: the scan runs over
      `Object.entries` of the Map rather than over the Map's entries. */
  function AddToApplicationAsWritten<T(==)>(o: EnumOption<T>): (d: Declaration<Nullable<string>>)
    ensures d.name == o.base.nameInCommandLine && d.help == o.base.helpInCommandLine
  {
    Declaration(o.base.nameInCommandLine, o.base.helpInCommandLine,
                LastKeyFor(ObjectEntries(o.stringToValueMap), o.base.defaultValue), Absent)
  }

  /** As written, no default token is ever declared. */
  lemma AsWrittenDeclaresNoDefault<T>(o: EnumOption<T>)
    ensures AddToApplicationAsWritten(o).defaultValue.Absent?
  {
  }

  /** A read: an empty raw value, or one whose lower-case form is no key,
      leaves the option alone; otherwise the value becomes the one stored
      under that key, or the default when that is null or undefined. */
  function ReadValueFromApplication<T(==)>(o: EnumOption<T>, host: Host): (r: EnumOption<T>)
    ensures r.stringToValueMap == o.stringToValueMap && SameIdentity(o.base, r.base)
    ensures var raw := host(o.base.nameInCommandLine);
            raw == "" || (forall i :: 0 <= i < |o.stringToValueMap| ==> o.stringToValueMap[i].0 != Ascii.ToLower(raw))
            ==> r == o
    ensures var raw := host(o.base.nameInCommandLine);
            forall i :: (0 <= i < |o.stringToValueMap| && raw != "" && o.stringToValueMap[i].0 == Ascii.ToLower(raw)
                         ==> r.base.value == o.stringToValueMap[i].1.OrElse(o.base.defaultValue))
    ensures r.base.value == o.base.value
            || exists i :: 0 <= i < |o.stringToValueMap| && !Ascii.HasUpper(o.stringToValueMap[i].0)
                           && o.stringToValueMap[i].1.OrElse(o.base.defaultValue) == r.base.value
  {
    var raw := host(o.base.nameInCommandLine);
    if raw != "" then
      var key := Ascii.ToLower(raw);
      match Get(o.stringToValueMap, key)
      case Present(mapped) => o.(base := Update(o.base, Present(mapped.OrElse(o.base.defaultValue))))
      case Absent => o
    else o
  }

  /** After any read the value is the previous one, the default, or a value
      stored in the map. */
  lemma ReadStaysInRange<T>(o: EnumOption<T>, host: Host)
    ensures var v := ReadValueFromApplication(o, host).base.value;
            v == o.base.value || v == o.base.defaultValue
            || exists i :: 0 <= i < |o.stringToValueMap| && o.stringToValueMap[i].1 == Present(v)
  {
    var v := ReadValueFromApplication(o, host).base.value;
    if v != o.base.value && v != o.base.defaultValue {
      var i :| 0 <= i < |o.stringToValueMap| && o.stringToValueMap[i].1.OrElse(o.base.defaultValue) == v;
      var e := o.stringToValueMap[i].1;
      assert e.OrElse(o.base.defaultValue) == if e.Present? then e.value else o.base.defaultValue;
      assert e == Present(v);
    }
  }

  /** A key with an upper-case letter never matches a raw value. */
  lemma UpperCaseKeyNeverMatches<T>(o: EnumOption<T>, host: Host, i: nat)
    requires i < |o.stringToValueMap| && Ascii.HasUpper(o.stringToValueMap[i].0)
    ensures Ascii.ToLower(host(o.base.nameInCommandLine)) != o.stringToValueMap[i].0
  {
    Ascii.UpperIsNoLowerForm(o.stringToValueMap[i].0, host(o.base.nameInCommandLine));
  }

  /** Reading the same host twice is reading it once. */
  lemma ReadIdempotent<T>(o: EnumOption<T>, host: Host)
    ensures ReadValueFromApplication(ReadValueFromApplication(o, host), host) == ReadValueFromApplication(o, host)
  {
  }

  /** A read changes neither the declaration nor the map. */
  lemma ReadKeepsDeclaration<T>(o: EnumOption<T>, host: Host)
    ensures AddToApplication(ReadValueFromApplication(o, host)) == AddToApplication(o)
  {
  }

  /** The keys "top", "right", "bottom", "left" mapped to 1 to 4. */
  function Directions(): MapEntries<int> {
    [("top", Present(1)), ("right", Present(2)), ("bottom", Present(3)), ("left", Present(4))]
  }

  /** With default 1 the declared default is "top" (as written: none); with
      default 99, which no key maps to, nothing is declared. */
  lemma DirectionDeclarationExamples()
    ensures AddToApplication(New("d", "h", 1, Directions())).defaultValue == Present("top")
    ensures AddToApplicationAsWritten(New("d", "h", 1, Directions())).defaultValue.Absent?
    ensures AddToApplication(New("d", "h", 99, Directions())).defaultValue.Absent?
  {
    var m := Directions();
    assert LastKeyFor(m[..1], 1) == Present("top");
    assert m[..2][..1] == m[..1] && LastKeyFor(m[..2], 1) == Present("top");
    assert m[..3][..2] == m[..2] && LastKeyFor(m[..3], 1) == Present("top");
    assert m[..3] == m[..|m| - 1] && LastKeyFor(m, 1) == Present("top");
  }

  /** With default 1, "RIGHT" selects 2 and "center" changes nothing. */
  lemma DirectionReadExamples(host: Host)
    ensures host("d") == "RIGHT" ==> ReadValueFromApplication(New("d", "h", 1, Directions()), host).base.value == 2
    ensures host("d") == "center" ==> ReadValueFromApplication(New("d", "h", 1, Directions()), host).base.value == 1
  {
    var m := Directions();
    if host("d") == "RIGHT" {
      assert Ascii.ToLower("RIGHT") == "right";
      assert m[1].0 == "right";
    }
    if host("d") == "center" {
      var lower := Ascii.ToLower("center");
      assert lower == "center";
      assert forall i :: 0 <= i < |m| ==> m[i].0 != lower;
    }
  }
}
