# Typed plugin options, modelled in Dafny

This project models the typed option layer of a TypeDoc plugin base. An
option has a name on the command line, a help text, a default and a current
value. It does two things for the host application (TypeDoc):

- it builds the declaration record that the host's option registry accepts
  (`addToApplication`);
- it reads the value the host resolved for its name and either accepts it as
  the new value or silently keeps the previous one
  (`readValueFromApplication`).

Two generations of option classes are modelled:

- `TypeDocPlugin*Option` (boolean, number, string, enum). The host's raw value
  is first turned into a string, then validated per type. Booleans compare
  with "true" ignoring case. Numbers go through `parseInt(_, 10)` and an
  inclusive bounds check. Strings must be non-empty. Enum values are
  lower-cased and looked up in a string-to-value map.
- `PluginOptionBase` and `PluginNumberOption`. The value field is public, and
  the number option checks a typed host number against NaN and its bounds.

Every option is an immutable datatype. Every read is a pure function from the
option (and the host lookup) to the updated option. The host is a function
from an option name to the already stringified raw value. The number host of
the later generation returns `Nullable<int>`, where `Absent` is NaN.

Modules:

- `JsValues`: `Nullable`, a value that may be NaN, null or undefined
  (`Absent`), with `OrElse` for JavaScript's `??`.
- `Ascii`: `toLowerCase` on ASCII letters.
- `Ecma262`: `parseInt(string, 10)` as section 19.2.5 of ECMA-262 defines
  it. It skips leading white space and line terminators, reads an optional
  sign, then takes the longest decimal digit prefix. No digits gives NaN.
  The module also has `ToDecimal`, the decimal rendering that `parseInt`
  inverts.
- `OptionBase`: the fields shared by both base classes, the declaration
  record, and the guarded update that every read performs.
- `TypeDocPluginBooleanOption`, `TypeDocPluginNumberOption`,
  `TypeDocPluginStringOption`, `TypeDocPluginEnumOption`: the four variants
  of the first generation.
- `PluginOptionBase`, `PluginNumberOption`: the later generation.

## Model

| member | source | states |
|---|---|---|
| `OptionBase.New` | src/typedoc_plugin_option_base.ts:34-41 | construction stores name, help and default as given, and the value starts at the default |
| `OptionBase.ValAfterNew` | src/typedoc_plugin_option_base.ts:24-26 | the `val` getter returns the current value, which is the default before any read |
| `OptionBase.Update` | src/typedoc_plugin_option_base.ts:14-18 | the only change a read makes is to `value`; name, help and default stay; no accepted value leaves the option exactly as it was |
| `Ascii.ToLower` | src/typedoc_plugin_enum_option.ts:63 | lower-casing keeps the length, maps each character on its own, and leaves no upper-case letter |
| `Ascii.ToLowerIdempotent` | src/typedoc_plugin_enum_option.ts:63 | lower-casing a lower-cased string changes nothing |
| `Ecma262.ParseInt` | src/typedoc_plugin_number_option.ts:56 | the empty string parses to NaN (with `ParseIntOfParts` and `ParseIntNaNIff` below this pins down every input) |
| `Ecma262.ParseIntOfParts` | src/typedoc_plugin_number_option.ts:56 | white space, then an optional `+` or `-`, then a non-empty run of digits, then text not starting with a digit, parses to the run's decimal value, negated after `-` |
| `Ecma262.TrimStartDropsWhiteSpace` | src/typedoc_plugin_number_option.ts:56 | the text that trimming drops from the front is all white space or line terminators; with `TrimStart`'s contract (the rest is a suffix that does not start with white space) this fixes what is trimmed |
| `Ecma262.ParseIntNaNIff` | src/typedoc_plugin_number_option.ts:56 | the result is NaN exactly when, after white space and one sign, no digit follows |
| `Ecma262.ParseIntOfPlus` | src/typedoc_plugin_number_option.ts:56 | after a leading `+` the digits are read at once; no further white space or sign is allowed |
| `Ecma262.ParseIntOfNegatedDigits` | src/typedoc_plugin_number_option.ts:56 | `-` followed by digits and any non-digit suffix is the negated value of the digits |
| `Ecma262.ParseIntPlusExample` | src/typedoc_plugin_number_option.ts:56 | "+12" parses to 12 |
| `Ecma262.ParseIntLeadingZerosExample` | src/typedoc_plugin_number_option.ts:56 | "007" parses to 7 |
| `Ecma262.ParseIntMinusZeroExample` | src/typedoc_plugin_number_option.ts:56 | "-0" parses to 0 (JavaScript's -0, which compares equal to 0) |
| `Ecma262.ParseIntNaNExamples` | src/typedoc_plugin_number_option.ts:56 | "x5", "-x5", "+-5" and "- 5" are all NaN |
| `Ecma262.ParseIntRoundTrip` | src/typedoc_plugin_number_option.ts:56 | parseInt recovers every integer from its decimal rendering |
| `Ecma262.ParseIntIgnoresSuffix` | src/typedoc_plugin_number_option.ts:56 | only the leading digits count: an integer's rendering followed by text that does not start with a digit parses to that integer |
| `Ecma262.ParseIntSkipsWhiteSpace` | src/typedoc_plugin_number_option.ts:56 | leading white space and line terminators do not change the result |
| `Ecma262.NoDigitIsNaN` | src/typedoc_plugin_number_option.ts:56-59 | a string with no decimal digit is NaN |
| `TypeDocPluginBooleanOption.LowerIsTrueIff` | src/typedoc_plugin_boolean_option.ts:39 | `toLowerCase() === "true"` holds exactly for the sixteen case spellings of "true" |
| `TypeDocPluginBooleanOption.AddToApplication` | src/typedoc_plugin_boolean_option.ts:22-29 | the declaration carries name, help and default unchanged, with no type tag |
| `TypeDocPluginBooleanOption.ReadValueFromApplication` | src/typedoc_plugin_boolean_option.ts:35-41 | an empty raw value changes nothing; any other raw value sets the value to whether it spells "true" in some case; name, help and default never change |
| `TypeDocPluginBooleanOption.ReadIdempotent` | src/typedoc_plugin_boolean_option.ts:35-41 | reading the same host twice gives the state of reading it once |
| `TypeDocPluginBooleanOption.ReadKeepsDeclaration` | src/typedoc_plugin_boolean_option.ts:22-29 | the declaration is the same before and after any read |
| `TypeDocPluginBooleanOption.ReadExamples` | src/typedoc_plugin_boolean_option.ts:36-39 | "TRUE" and "True" set true; "false", "yes" and the "undefined" of an absent host value set false |
| `TypeDocPluginNumberOption.New` | src/typedoc_plugin_number_option.ts:22-33 | construction stores the bounds and starts at the default; the default is not checked against the bounds |
| `TypeDocPluginNumberOption.AddToApplication` | src/typedoc_plugin_number_option.ts:39-46 | the declaration carries name, help and default, no type tag and no bounds |
| `TypeDocPluginNumberOption.ReadValueFromApplication` | src/typedoc_plugin_number_option.ts:52-66 | after a read the value is unchanged or an in-bounds integer that parseInt gave; NaN leaves the option unchanged; a parsed integer is accepted exactly when min <= n <= max |
| `TypeDocPluginNumberOption.ReadKeepsInBounds` | src/typedoc_plugin_number_option.ts:58-63 | an option whose value is within its bounds stays within them after any read |
| `TypeDocPluginNumberOption.EmptyKeepsValue` | src/typedoc_plugin_number_option.ts:53-55 | an empty raw string leaves the option unchanged |
| `TypeDocPluginNumberOption.ReadIdempotent` | src/typedoc_plugin_number_option.ts:52-66 | reading the same host twice gives the state of reading it once |
| `TypeDocPluginNumberOption.ReadKeepsDeclaration` | src/typedoc_plugin_number_option.ts:39-46 | the declaration is the same before and after any read |
| `TypeDocPluginNumberOption.ReadOfDecimal` | src/typedoc_plugin_number_option.ts:56-63 | an integer written in decimal, optionally followed by a non-digit tail, is accepted exactly when it lies within the bounds |
| `TypeDocPluginNumberOption.BoundaryExamples` | src/typedoc_plugin_number_option.ts:56-63 | with bounds 0..256 and default 16, "256" gives 256 and "12abc" gives 12, while "257", "-1" and "abc" keep 16 |
| `TypeDocPluginStringOption.AddToApplication` | src/typedoc_plugin_string_option.ts:22-29 | the declaration carries name, help and default unchanged, with no type tag |
| `TypeDocPluginStringOption.ReadValueFromApplication` | src/typedoc_plugin_string_option.ts:35-41 | a non-empty raw value becomes the value verbatim; an empty one changes nothing |
| `TypeDocPluginStringOption.ReadNeverEmpties` | src/typedoc_plugin_string_option.ts:38-40 | after a read the value is the previous one or the raw value, and it is empty only if it was empty before |
| `TypeDocPluginStringOption.EmptyCannotOverrideDefault` | src/typedoc_plugin_string_option.ts:36-38 | an explicit "" read into a fresh option leaves the default |
| `TypeDocPluginStringOption.ReadIdempotent` | src/typedoc_plugin_string_option.ts:35-41 | reading the same host twice gives the state of reading it once |
| `TypeDocPluginStringOption.ReadKeepsDeclaration` | src/typedoc_plugin_string_option.ts:22-29 | the declaration is the same before and after any read |
| `TypeDocPluginEnumOption.New` | src/typedoc_plugin_enum_option.ts:20-29 | construction stores the map and starts at the default |
| `TypeDocPluginEnumOption.Get` | src/typedoc_plugin_enum_option.ts:65-66 | `has` is false exactly when no entry has the key; otherwise `get` yields the value of the entry with that key |
| `TypeDocPluginEnumOption.LastKeyFor` | src/typedoc_plugin_enum_option.ts:36-45 | the scan yields nothing exactly when no entry maps to the value; otherwise it yields the key of an entry mapping to it, with no later entry mapping to it |
| `TypeDocPluginEnumOption.ScanDefaultKey` | src/typedoc_plugin_enum_option.ts:36-45 | the forward loop that overwrites the candidate key at each match, with no `break`, ends with the key the last-match reference definition gives |
| `TypeDocPluginEnumOption.AddToApplication` | src/typedoc_plugin_enum_option.ts:35-53 | corrected: scans the Map's own entries rather than `Object.entries` of it; the declaration carries name and help, no type tag and no map; its default is absent exactly when no key maps to the option's default, and otherwise is a key that maps to it |
| `TypeDocPluginEnumOption.DeclaredDefaultIsLastMatch` | src/typedoc_plugin_enum_option.ts:40-44 | with no `break` in the loop, an earlier key that maps to the default is never the declared one when a later key does too |
| `TypeDocPluginEnumOption.AddToApplicationAsWritten` | src/typedoc_plugin_enum_option.ts:35-53 | the declaration as the code builds it, scanning `Object.entries` of the Map, still carries name and help |
| `TypeDocPluginEnumOption.AsWrittenDeclaresNoDefault` | src/typedoc_plugin_enum_option.ts:39-45 | as written, the declared default is always absent |
| `TypeDocPluginEnumOption.ReadValueFromApplication` | src/typedoc_plugin_enum_option.ts:59-69 | an empty raw value, or one whose lower-case form is no key, changes nothing; a matching key sets the value to its mapped value, or to the default when that is null; any new value comes through a key with no upper-case letter |
| `TypeDocPluginEnumOption.ReadStaysInRange` | src/typedoc_plugin_enum_option.ts:65-66 | after any read the value is the previous one, the default, or a value in the map |
| `TypeDocPluginEnumOption.UpperCaseKeyNeverMatches` | src/typedoc_plugin_enum_option.ts:63-65 | a key with an upper-case letter never equals a lower-cased raw value |
| `TypeDocPluginEnumOption.ReadIdempotent` | src/typedoc_plugin_enum_option.ts:59-69 | reading the same host twice gives the state of reading it once |
| `TypeDocPluginEnumOption.ReadKeepsDeclaration` | src/typedoc_plugin_enum_option.ts:35-53 | the declaration is the same before and after any read |
| `TypeDocPluginEnumOption.DirectionDeclarationExamples` | src/typedoc_plugin_enum_option.ts:35-53 | with keys top/right/bottom/left mapped to 1..4 and default 1 the declared default is "top" (as written: absent); with default 99 no default is declared |
| `TypeDocPluginEnumOption.DirectionReadExamples` | src/typedoc_plugin_enum_option.ts:59-69 | with the same map and default 1, "RIGHT" selects 2 and "center" keeps 1 |
| `PluginOptionBase.NewStoresFields` | src/plugin_option_base.ts:26-41 | construction stores name, help and default verbatim and starts at the default; the `name` getter returns the constructor's name |
| `PluginOptionBase.AssignValue` | src/plugin_option_base.ts:18 | the public `value` takes any assigned value, with name, help and default kept |
| `PluginOptionBase.AssignKeepsName` | src/plugin_option_base.ts:39-41 | an assignment never changes the name the option is looked up by |
| `PluginNumberOption.AddToApplication` | src/plugin_number_option.ts:39-46 | the declaration carries type tag Number, name, help and default, and no bounds |
| `PluginNumberOption.ReadValueFromApplication` | src/plugin_number_option.ts:52-62 | NaN leaves the option unchanged; a number is accepted exactly when min <= n <= max; after a read the value is unchanged or within the bounds |
| `PluginNumberOption.ReadIdempotent` | src/plugin_number_option.ts:52-62 | reading the same host twice gives the state of reading it once |
| `PluginNumberOption.ReadKeepsInBounds` | src/plugin_number_option.ts:55-61 | an option whose value is within its bounds stays within them after any read |
| `PluginNumberOption.GenerationsAgree` | src/plugin_number_option.ts:52-62 | the string-reading number option behaves as the typed one does on a host that returns parseInt of the string |
| `PluginNumberOption.DeclarationsDifferInTag` | src/plugin_number_option.ts:39-46 | the two generations' number declarations differ only in the type tag |
| `PluginNumberOption.AssignmentBypassesBounds` | src/example_plugin_using_plugin_classes.ts:104-108 | assigning the public field directly, as the example plugin does, can leave a number option outside its bounds |

## Left out

- `asDeclaration` of `PluginOptionBase` (src/plugin_option_base.ts:43-47).
  It is an abstract getter that no option class in the source implements,
  so `PluginNumberOption` does not type-check as given. The later example
  plugin registers its declarations through it
  (src/example_plugin_using_plugin_classes.ts:65-68). The model's
  later-generation declaration is the class's own `addToApplication`
  (src/plugin_number_option.ts:39-46).
- The `protected` modifier of `value` in `TypeDocPluginOptionBase`
  (src/typedoc_plugin_option_base.ts:18). The model's `Base` can be updated
  by anyone, including by `PluginOptionBase.AssignValue`. Only the reads'
  contracts say that a read changes nothing but `value`.
- The host application: the registry's `addDeclaration` (name collisions
  included) and `getValue`. Declarations are returned as records, and the
  host's lookup is a function parameter.
- JavaScript's `String(x)` coercion of arbitrary host values. The raw value
  arrives already stringified. An absent host value stringifies to
  "undefined", which is non-empty, so the boolean option sets false for it.
- Floating-point numbers. `parseInt` yields a mathematical integer, so the
  precision lost on long digit strings, Infinity, non-integer host numbers
  in the later generation, and non-integer bounds are not modelled. A parsed
  `-0` is the integer 0.
- `TypeDocPluginNumberOption.ReadValueFromApplication`: does not model the
  rounding to a double that `parseInt` applies to more than fifteen or so
  significant digits, because the model's numbers are unbounded integers.
- Case mapping outside ASCII: `toLowerCase` lower-cases only 'A'..'Z'.
  Strings are sequences of Unicode scalar values rather than UTF-16 code
  units; every white-space code point `parseInt` trims lies in the Basic
  Multilingual Plane, so this does not change which prefix is trimmed.
- JavaScript property enumeration in general. `Object.entries` of a `Map`
  object is modelled by its one relevant fact: it yields no entries.
- Aliasing of the enum option's map. The constructor keeps the caller's
  `Map` by reference (src/typedoc_plugin_enum_option.ts:28), so a later
  `set` or `delete` by the caller changes which raw values a read accepts
  and which key the declaration recovers. The model's map is a value fixed
  at construction.
- The `if (this.stringToValueMap)` guard of the enum declaration. A `Map`
  object is always truthy, and the model's map is always present.
- A `null` or `undefined` default of the enum option. The default is a
  value of `T`. A null or undefined mapped value is modelled (`Absent`), so
  the `??` fallback is covered.
- The plugin entry point, the plugin base class, event subscription and the
  example plugins. These are wiring into the host with empty handlers.
- `PluginBooleanOption`, `PluginStringOption` and `PluginEnumOption`. Each
  read there is a bare type cast of the host's value, and each declaration
  only copies fields.
- The lifecycle of registration and resolution. Callers decide when to
  build declarations and when to read. The model shows that reads are
  idempotent and never change a declaration.

Facts about the code that the model keeps:

- The loop at src/typedoc_plugin_enum_option.ts:40-44 has no `break`, so
  the last key that maps to the default is the one declared.
- Both bounds of a number option are required constructor parameters.
- The first generation's boolean, number and string declarations set no
  `type`.

## Findings

| source | as written | input that shows it | evidently intended | confidence | as-written member | corrected member |
|---|---|---|---|---|---|---|
| src/typedoc_plugin_enum_option.ts:40 | the default token is searched in `Object.entries(this.stringToValueMap)`; a `Map` has no enumerable own properties, so the loop never runs and the declared default is always undefined | map top/right/bottom/left to 1..4 with default 1: the declaration has no default instead of "top" | scan the Map's own entries (`this.stringToValueMap.entries()`), so the key of the default is declared | not executed; high | `TypeDocPluginEnumOption.AsWrittenDeclaresNoDefault` | `TypeDocPluginEnumOption.AddToApplication` |
