# BackSupport generator, modelled in Dafny

BackSupport reads .NET entity classes and writes one JavaScript file. The file holds a
Backbone-style class for every type that matches an assembly filter. Each class lists its
fields, each field's rendered .NET type name, and the validator calls that come from the
field's data-annotation attributes (`[Required]`, `[StringLength]`, `[Range]`,
`[RegularExpression]`, `[Display]`).

This project models `BackSupport/Generator.cs` and proves properties of the model:

- `Host` (host.dfy): what reflection supplies, as plain values. These are types (full
  name, namespace, generic arguments, properties), properties with their attributes,
  assemblies, and the exceptions the generator throws. `Type.IsAssignableFrom`,
  `Regex.IsMatch` and `Directory.Exists` are function parameters.
- `TypeRegistry` (type_registry.dfy): `DefaultTypeDefinitionProvider` is a class whose
  table is a `seq` of (key, descriptor) pairs kept in registration order. The lookup
  takes the last key that is the type itself or is assignable from it. The sixteen
  default registrations come first, with `object` at their head.
- `Validation` (validation.dfy): `DefaultValidationDefinitionProvider` is an exact-key map
  from attribute type to rule. The module also holds the four snippet renderers and
  `JsFieldName`.
- `Entities` (entities.dfy): what `GetEntityDefinition`, `GetPropertyDefinition` and
  `GetValidations` compute, stated as functions.
- `Emitter` (emitter.dfy): the text `GenerateNamespace`, `GenerateType` and `Generate`
  write, stated as functions over a namespace cache.
- `Generation` (generation.dfy): `GeneratorOptions`, the file writer and `Generator`. The
  generator's methods use loops over `StringBuilder` text, the `Fields` array and the
  namespace cache list. Each method is proved equal to the functions above.
- `Fixtures` (fixtures.dfy): the `User` and `Group` test classes run through the model.
- `Text` and `Wrappers`: string helpers (split, join, escaping, numerals) and
  `Option`/`Result`/`Outcome`.

An exception is an `Err`/`Fail` value carrying an `Error`. A method returns it where the
source would throw, and doesn't change state after it.

Where the code and the description or the tests disagree, the model follows the code:

- `GenerateNamespace` splits the host `Type.Namespace`, not the transformed JavaScript name.
- `RangeValidation` writes `min`/`max` whenever they are non-null, including 0.
- `RegexValidation` calls `BackSupport.Validate.Range(`, not `Regex(`.
- A field's type name comes from the descriptor's `Type`, with a leading `System.` removed.
  So a `string` property is written `String`, not `System.String` as the test at
  BackSupportTests/JsGenerationTests.cs:40 expects.
- The `Nullable<char>` registration carries `typeof(char)`, so it renders as `Char`.
- Under `LastOrDefault` with .NET assignability, an `int` resolves to the later
  `Nullable<int>` entry and is written `Int32?`. A `DateTime` is written `DateTime?`
  (`Fixtures.Int32Resolves`, `Fixtures.DateTimeResolves`).

## Model

| member | source | states |
|---|---|---|
| TypeRegistry.LastMatch | BackSupport/Generator.cs:241 | the position of the last key that equals the type or is assignable from it; none exactly when no key matches |
| TypeRegistry.GetTypeDefinition | BackSupport/Generator.cs:239-245 | the descriptor of the last matching key in registration order; `NoTypeDefinition` exactly when no key matches |
| TypeRegistry.Upsert | BackSupport/Generator.cs:248 | the dictionary indexer: the table keeps its size exactly when the key is known, and then the key keeps its place and takes the new descriptor; a new key goes last; other entries are unchanged and keys stay distinct |
| TypeRegistry.DefaultTypeDefinitionProvider.constructor | BackSupport/Generator.cs:233-236 | a new provider holds exactly the default table |
| TypeRegistry.DefaultTypeDefinitionProvider.SetTypeDefinition | BackSupport/Generator.cs:246-249 | the table becomes `Upsert(old table, type, definition)` and keys stay distinct |
| TypeRegistry.DefaultTypeDefinitionProvider.SetupDefaultTypes | BackSupport/Generator.cs:250-270 | from an empty table, the sixteen registrations in call order |
| TypeRegistryProperties.RegisteredDistinct | BackSupport/Generator.cs:250-270 | registering distinct keys one by one lists them in registration order |
| TypeRegistryProperties.DefaultTable | BackSupport/Generator.cs:252-269 | the default table is the sixteen registrations, `object` first, with distinct keys |
| TypeRegistryProperties.SetThenGet | BackSupport/Generator.cs:239-249 | after `SetTypeDefinition(t, d)`, `t` resolves to `d` unless a key after `t`'s place is assignable from `t` |
| TypeRegistryProperties.ResolvesNoEarlier | BackSupport/Generator.cs:241 | a matching key means the lookup succeeds at that key or a later one |
| TypeRegistryProperties.DefaultNeverFails | BackSupport/Generator.cs:252-253 | `object` is first and assignable from every type, so the default table never throws |
| TypeRegistryProperties.Int32BeatsObject | BackSupport/Generator.cs:239-257 | `System.Int32` never gets the `object` descriptor |
| TypeRegistryProperties.Int32ResolvesToNullable | BackSupport/Generator.cs:241-264 | when `Nullable<int>` is assignable from `int` and no later key is, `int` gets the `Nullable<int>` descriptor |
| Validation.GetValidationDefinition | BackSupport/Generator.cs:200-210 | null exactly when the attribute's exact type is unregistered; otherwise the registered rule bound to this attribute and property |
| Validation.DefaultValidationDefinitionProvider.constructor | BackSupport/Generator.cs:195-198 | a new provider holds exactly the four default registrations |
| Validation.DefaultValidationDefinitionProvider.SetValidationDefinition | BackSupport/Generator.cs:212-215 | the map takes the new rule for the attribute type and nothing else changes |
| Validation.DefaultValidationDefinitionProvider.SetupDefaultValidations | BackSupport/Generator.cs:217-223 | the four registrations, in order, on top of the old map |
| Validation.FirstDisplayDescription | BackSupport/Generator.cs:356-358 | the description of the first `Display` attribute, or none when there is no `Display` |
| Validation.JsFieldName | BackSupport/Generator.cs:352-362 | the first `Display` description when there is one, otherwise the property name |
| Validation.SnippetOptions | BackSupport/Generator.cs:389-424 | StringLength: maxLength if > 0, then minLength if > 0. Range: min and max whenever non-null. Regex: quoted, escaped pattern if non-null. Required: nothing. Keys in that order |
| Validation.GetJsValidationSnippet | BackSupport/Generator.cs:375-427 | the factory call with the field name and options; `AttributeMismatch` exactly when the attribute is not of the rule's type |
| Validation.CollectValidations | BackSupport/Generator.cs:176-182 | at most one rule per attribute, each registered and bound to its attribute and this property |
| ValidationProperties.DefaultRulesFit | BackSupport/Generator.cs:217-223 | with the default registrations, every registered attribute gets a rule whose snippet does not throw |
| ValidationProperties.DefaultIgnoresOthers | BackSupport/Generator.cs:202-209 | `Display` and unregistered attributes give null |
| ValidationProperties.MisregisteredRuleThrows | BackSupport/Generator.cs:403-405 | Range bound to a regular-expression attribute throws |
| ValidationProperties.CollectAppend | BackSupport/Generator.cs:176-182 | the rules of `a + b` are those of `a` followed by those of `b` |
| ValidationProperties.SkipsUnregistered | BackSupport/Generator.cs:179-180 | an unregistered attribute contributes nothing wherever it stands |
| ValidationProperties.KeepsRegistered | BackSupport/Generator.cs:178-180 | a registered attribute contributes exactly its rule, in its place |
| ValidationProperties.RequiredSnippet | BackSupport/Generator.cs:375-378 | exactly `BackSupport.Validate.Required({ fieldName: 'N'})` |
| ValidationProperties.RenderBothLengths | BackSupport/Generator.cs:389-392 | both lengths present render as `, 'maxLength': M, 'minLength': m` |
| ValidationProperties.StringLengthSnippet | BackSupport/Generator.cs:385-394 | the whole StringLength snippet when both lengths are positive |
| ValidationProperties.StringLengthBoundsReadBack | BackSupport/Generator.cs:389-392 | the numerals written as maxLength/minLength read back as the attribute's lengths |
| ValidationProperties.RangeWritesZero | BackSupport/Generator.cs:406-409 | a bound of 0 is written; only a null bound is skipped |
| ValidationProperties.RegexPatternReadBack | BackSupport/Generator.cs:423-424 | the regex value is the pattern between quotes with only its quotes escaped, so `UnescapeQuotes` recovers the pattern |
| ValidationProperties.DisplayNamesTheField | BackSupport/Generator.cs:352-360 | the field name is the Display description when present, else the property name |
| Entities.BuildField | BackSupport/Generator.cs:164-171 | the name, the descriptor of the declared type and the collected rules; the lookup's exception otherwise |
| Entities.BuildFields | BackSupport/Generator.cs:155-160 | one field per property, same order; the first failing property's exception |
| Entities.BuildEntity | BackSupport/Generator.cs:148-162 | full name, transformed JS name, base class exactly when non-null and non-empty, fields named like the properties in order |
| Emitter.PrefixesFrom | BackSupport/Generator.cs:90-94 | one cumulative prefix per namespace component |
| Emitter.Declare | BackSupport/Generator.cs:88-100 | the cache only grows: the old cache is a prefix of the new one |
| Emitter.NamespaceStep | BackSupport/Generator.cs:87 | a type in the global namespace makes `Namespace.Split` throw |
| Emitter.ShortName | BackSupport/Generator.cs:109 | the text after the last `.` of the JS name, or the whole name; it contains no `.` |
| Emitter.StripSystem | BackSupport/Generator.cs:126-127 | a leading `System.` removed once, other names unchanged |
| Emitter.RenderTypeName | BackSupport/Generator.cs:123-127 | `Arg?` for a `Nullable` descriptor type, then `System.` removed; `MissingGenericArgument` when a Nullable name has no argument |
| Emitter.ConcatAll | BackSupport/Generator.cs:120-141 | appends that may throw: `Ok` exactly when every piece is, or the first exception |
| Emitter.ConcatStep | BackSupport/Generator.cs:129-135 | one loop step: an `Ok` piece extends the text, an exception ends the whole |
| EmitterProperties.TypesMatchingMembers | BackSupport/Generator.cs:57-59 | no more types than the assembly has, and a type is kept exactly when the filter matches its full name |
| Emitter.BodyStep | BackSupport/Generator.cs:75-76 | one type: null namespace throws with the cache unchanged; otherwise the cache is that of the namespace's declarations |
| Emitter.Bodies | BackSupport/Generator.cs:73-77 | the cache only grows across the loop |
| EmitterProperties.DeclareCovers | BackSupport/Generator.cs:95-99 | afterwards every prefix is cached, and the cache holds only old entries and prefixes |
| EmitterProperties.DeclareKnown | BackSupport/Generator.cs:95 | with every prefix cached, nothing is written and the cache is unchanged |
| EmitterProperties.DeclareIdempotent | BackSupport/Generator.cs:85-102 | a second call for the same namespace writes "" and leaves the cache as it is |
| EmitterProperties.DeclareKeepsDistinct | BackSupport/Generator.cs:95-99 | the cache stays free of duplicates, and what is added was not cached before |
| EmitterProperties.DeclareText | BackSupport/Generator.cs:97 | the text is one declaration line per newly cached prefix, in cache order |
| EmitterProperties.DeclareAppend | BackSupport/Generator.cs:91-100 | declaring `a + b` is declaring `a` then `b` |
| EmitterProperties.PrefixesAfter | BackSupport/Generator.cs:90-94 | each prefix is the current namespace joined with the next components |
| EmitterProperties.NamespacePrefixesDotted | BackSupport/Generator.cs:87-94 | for `a.b.c` the prefixes are `a`, `a.b`, `a.b.c`, the last one the namespace itself |
| EmitterProperties.TwoLevelNamespace | BackSupport/Generator.cs:85-102 | a fresh cache gets the outer and then the full namespace, each with its `this.P = this.P = this.P \|\| {};` line |
| EmitterProperties.ConcatSeparated | BackSupport/Generator.cs:129-140 | pieces with a separator, the last with a terminator, concatenate to the join plus the terminator |
| EmitterProperties.ValidationsJoined | BackSupport/Generator.cs:129-135 | a field's validations array holds its snippets joined by `", "` |
| EmitterProperties.FieldLine | BackSupport/Generator.cs:128-140 | `'name': {'type': 'tn', 'validations': […]}`, then `,` unless last, then a line break |
| EmitterProperties.FieldsJoined | BackSupport/Generator.cs:120-141 | the field entries joined by `,` and a line break, then a bare line break after the last |
| EmitterProperties.FieldTextFails | BackSupport/Generator.cs:123-135 | a field line throws exactly when its type name or one of its snippets does |
| EmitterProperties.TypeTextFails | BackSupport/Generator.cs:120-141 | a class throws exactly when one of its fields does |
| EmitterProperties.DefaultDescriptorsRender | BackSupport/Generator.cs:252-269 | every default descriptor's type name renders |
| EmitterProperties.PlainTypeNames | BackSupport/Generator.cs:126-127 | the string, int and DateTime descriptors render as `String`, `Int32`, `DateTime` |
| EmitterProperties.NullableInt32TypeName | BackSupport/Generator.cs:124-127 | the `Nullable<int>` descriptor renders as `Int32?` |
| EmitterProperties.NullableDateTimeTypeName | BackSupport/Generator.cs:124-127 | the `Nullable<DateTime>` descriptor renders as `DateTime?` |
| EmitterProperties.NullableCharTypeName | BackSupport/Generator.cs:263 | the `Nullable<char>` descriptor carries `char`, so it renders as `Char` |
| EmitterProperties.DefaultFieldRenders | BackSupport/Generator.cs:164-171 | with the defaults, a property whose type is assignable to object yields a field that renders |
| EmitterProperties.DefaultTypeOutputSucceeds | BackSupport/Generator.cs:104-146 | with the defaults, and every property type assignable to object, GenerateType never throws |
| EmitterProperties.OpeningShape | BackSupport/Generator.cs:110-119 | the header first; with a base class, `__extends` and then the constructor with its super call |
| EmitterProperties.TypeOutputShape | BackSupport/Generator.cs:109-144 | with a base class the text begins with header, `__extends`, constructor and super call; without one, the constructor closes at once; it ends with `return short;` and `}).call(this);` |
| EmitterProperties.SingleTypeBodies | BackSupport/Generator.cs:73-77 | one type in a two-level namespace, fresh cache: both declaration lines, then the class |
| EmitterProperties.BodiesKeepDistinct | BackSupport/Generator.cs:73-77 | the namespace cache stays free of duplicates across Generate's loop |
| EmitterProperties.GlobalNamespaceThrows | BackSupport/Generator.cs:87 | a matching type in the global namespace makes Generate throw |
| EmitterProperties.DefaultBodiesSucceed | BackSupport/Generator.cs:73-77 | with the defaults, the loop throws only for a type in the global namespace |
| EmitterProperties.BodiesCovers | BackSupport/Generator.cs:73-77 | after the loop, every namespace prefix of every type is in the cache |
| EmitterProperties.BodiesOfOne | BackSupport/Generator.cs:73-77 | the loop over one type is that type's namespace lines and class |
| EmitterProperties.BodiesSnoc | BackSupport/Generator.cs:73-77 | the loop over `types + [t]` is the loop over `types`, then `t`'s step from the cache it left; an exception stops it |
| EmitterProperties.KnownNamespaceStep | BackSupport/Generator.cs:95-99 | a type whose namespace prefixes are all cached adds its class and no declaration line |
| EmitterProperties.RepeatedNamespaceWritesOnlyTheClass | BackSupport/Generator.cs:73-99 | a type after one of the same namespace adds only its class, so no namespace is declared twice |
| EmitterProperties.TypesMatchingAppend | BackSupport/Generator.cs:57-59 | filtering `a + b` gives the matches of `a` then those of `b`, so `GetTypes()` order is kept |
| EmitterProperties.TypesMatchingOne | BackSupport/Generator.cs:58-59 | one type is kept exactly when its full name matches |
| EmitterProperties.TypesMatchingDistinct | BackSupport/Generator.cs:57-59 | an assembly listing each type once yields each matching type once |
| EmitterProperties.MatchingTypesMembers | BackSupport/Generator.cs:54-60 | a type is picked exactly when some filtered assembly holds it and that filter's regex matches its full name |
| EmitterProperties.MatchingTypesAppend | BackSupport/Generator.cs:54-60 | the types of `f + g` are those of `f` then those of `g`: filter order is kept |
| EmitterProperties.MatchingTypesOne | BackSupport/Generator.cs:54-60 | one filter contributes exactly its assembly's matching types, in `GetTypes()` order |
| Generation.FileSink.constructor | BackSupport/Generator.cs:12-15 | nothing written yet |
| Generation.FileSink.WriteFile | BackSupport/Generator.cs:19-22 | the write is recorded after the earlier ones |
| Generation.GeneratorOptions.constructor | BackSupport/Generator.cs:275-281 | identity transformer, `Backbone.Model` base class, fresh default providers, no output file |
| Generation.GeneratorOptions.Validate | BackSupport/Generator.cs:288-300 | passes exactly when all five checks hold; each message exactly when its check is the first to fail |
| Generation.Generator.constructor | BackSupport/Generator.cs:37-41 | the given options and writer, no filters, empty cache |
| Generation.Generator.WithOwnFileUtils | BackSupport/Generator.cs:31-35 | the given options and a new writer of its own |
| Generation.Generator.AddFilter | BackSupport/Generator.cs:43-47 | a new assembly is appended with its regex; a known one throws and the filters stay as they were |
| Generation.Generator.GenerateNamespace | BackSupport/Generator.cs:85-102 | the text and new cache are `Declare(old cache, prefixes of Type.Namespace)`; a global-namespace type throws with the cache unchanged |
| Generation.Generator.GetValidations | BackSupport/Generator.cs:173-183 | `CollectValidations` of the registry, the attributes and the property |
| Generation.Generator.GetPropertyDefinition | BackSupport/Generator.cs:164-171 | `BuildField` of the options |
| Generation.Generator.GetEntityDefinition | BackSupport/Generator.cs:148-162 | `BuildEntity` of the options, with the array filled by index |
| Generation.Generator.RenderValidations | BackSupport/Generator.cs:129-135 | `ValidationsText` of the field's validations |
| Generation.Generator.RenderField | BackSupport/Generator.cs:122-140 | `FieldText` of the field |
| Generation.Generator.RenderClassOpening | BackSupport/Generator.cs:110-119 | `ClassOpening` of the names and base class |
| Generation.Generator.RenderFields | BackSupport/Generator.cs:120-141 | `FieldsText` of the fields |
| Generation.Generator.GenerateType | BackSupport/Generator.cs:104-146 | `TypeOutput` of the options and the type |
| Generation.Generator.CollectMatchingTypes | BackSupport/Generator.cs:53-60 | `MatchingTypes` of the filters |
| Generation.Generator.GenerateStep | BackSupport/Generator.cs:75-76 | `BodyStep` from the current cache; the cache stays free of duplicates |
| Generation.Generator.GenerateBodies | BackSupport/Generator.cs:73-77 | `Bodies` from the current cache, which stays free of duplicates |
| Generation.Generator.Generate | BackSupport/Generator.cs:50-82 | the options checked first, with no write on failure; then the preamble, each matching type's namespace lines and class, the epilogue, and one `WriteFile` to `OutputFile`; no write if a type throws |
| Generation.ContinuesStep | BackSupport/Generator.cs:73-77 | one step of Generate's loop keeps the partial text consistent with the whole |
| Fixtures.UserValidationCounts | BackSupportTests/JsGenerationTests.cs:64-78 | User has Name 1, Age 2, CustomerType 1, FullName 1, OptionalField 0, DateOfBirth 0, Group 0 rules; Group.Name has 2 |
| TypeRegistryProperties.ResolvesAt | BackSupport/Generator.cs:241 | a matching key with no later match is what the lookup returns |
| Fixtures.StringResolves | BackSupport/Generator.cs:255 | a string property gets the string descriptor, written `String` |
| Fixtures.Int32Resolves | BackSupport/Generator.cs:257-264 | an int property gets the later `Nullable<int>` descriptor, written `Int32?` |
| Fixtures.DateTimeResolves | BackSupport/Generator.cs:262-269 | a DateTime property gets the `Nullable<DateTime>` descriptor, written `DateTime?` |
| Fixtures.GroupResolves | BackSupport/Generator.cs:253 | a Group property matches only `object`, written `Object` |
| Fixtures.UserIsTheOnlyMatch | BackSupportTests/JsGenerationTests.cs:24 | the regex of User's name picks User and not Group out of the test assembly |
| Fixtures.FixtureTypesRender | BackSupport/Generator.cs:104-146 | with the tests' options, any class is generated without an exception |
| Fixtures.TestNamespaceBodies | BackSupport/Generator.cs:73-77 | a type of `BackSupportTests.TestObjects` from a fresh cache declares `BackSupportTests`, then `BackSupportTests.TestObjects`, then its class |
| Text.Split | BackSupport/Generator.cs:87 | `string.Split('.')`: at least one part, no part holds the separator, the parts join back |
| Text.SplitJoin | BackSupport/Generator.cs:87 | splitting joined separator-free parts returns the parts |
| Text.LastIndexOf | BackSupport/Generator.cs:109 | the last position of the character, or -1 |
| Text.EscapeQuotes | BackSupport/Generator.cs:424 | every `'` is preceded by `\` |
| Text.UnescapeEscape | BackSupport/Generator.cs:424 | the quote escaping is injective: `UnescapeQuotes` undoes it on every string |
| Text.EscapeQuotesWithoutQuote | BackSupport/Generator.cs:424 | a text without `'` is written unchanged; backslashes are not escaped |
| Text.NatToString | BackSupport/Generator.cs:390-392 | a decimal numeral, digits only |
| Text.DecimalValueNatToString | BackSupport/Generator.cs:390-392 | the numeral reads back as the number |

## Left out

- BackSupport/BackSupport.Runtime.js, the JavaScript runtime the generated file calls, is not part of this model. It relies on dynamic typing, RegExp, Date and floating point.
- File I/O: `FileUtils.WriteFile` becomes `FileSink`, which records each write with its file name and contents.
- `GeneratorOptions.Validate`: whether the output file's parent directory exists is a
  function parameter, `Runtime.directoryExists`. The `FileInfo` exception for an empty or
  malformed path is not modelled.
- Reflection: `Assembly.GetTypes`, `Type.GetProperties`, `GetCustomAttributes(true)` and
  `GetGenericArguments` are plain values. `IsAssignableFrom` and `Regex.IsMatch` are
  function parameters. `Activator.CreateInstance` becomes a `ValidationDefinition` value.
  `RangeAttribute`'s bounds are supplied already rendered by `ToString()`, and
  `StringLengthAttribute`'s lengths as integers.
- Generation.GeneratorOptions: the providers are the default classes, not arbitrary
  `ITypeDefinitionProvider`/`IValidationDefinitionProvider` implementations. The
  registries can still be changed through `SetTypeDefinition` and `SetValidationDefinition`.
- Validation.GetValidationDefinition: the attribute-to-rule map registers the four rule
  classes of Generator.cs. A rule class from outside the file is not modelled.
- The name transformer is a total Dafny function. A delegate that throws or returns null is not modelled.
- `Environment.NewLine` is fixed to `"\n"`.
- The preamble and epilogue are constant strings (`Emitter.Preamble`, `Emitter.Epilogue`): exact copies of the verbatim literals, with nothing proved about their JavaScript.
- TypeRegistry.LastMatch: the last-match rule of `Keys.LastOrDefault` is taken over registration order, with an overwritten key keeping its place (`TypeRegistry.Upsert`). This is how `Dictionary` enumerates keys when none is ever removed, not an order .NET documents.
- ValidationProperties.RegexPatternReadBack: the pattern is recovered by `UnescapeQuotes`, the inverse of the quote escaping, not by a JavaScript engine's decoding of the literal. The source escapes only `'`, so a backslash in the pattern reaches the literal as it is (`Text.EscapeQuotesWithoutQuote`), and JavaScript reads `'\d'` as `d`.
- Generation.Generator.Generate: the filter dictionary is enumerated in insertion order. This is `Dictionary`'s behaviour when nothing is ever removed, not something the language guarantees.
- Emitter.RenderTypeName: a `Nullable` full name with no generic arguments throws `MissingGenericArgument`. Reflection never produces one, so that branch only covers descriptors built by hand.
- Generation.Generator.Generate requires `Valid()`: each assembly appears in the filters once and the cache has no duplicates. The constructors establish this and every method keeps it.
- The tests' `"System.String"`-style type expectations (BackSupportTests/JsGenerationTests.cs:40-50) are not encoded, because the code strips `System.`. The `Fixtures` module instead proves what the code writes.
