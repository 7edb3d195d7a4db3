/**
 * The User and Group classes of the repository's test fixtures, run through the model
 * with the default providers and a .NET-like IsAssignableFrom: their validation counts,
 * the type names their fields are written with, and what Generate declares for them.
 */
module Fixtures {
  import opened Wrappers
  import opened Host
  import opened Text
  import opened TypeRegistry
  import opened TypeRegistryProperties
  import opened Validation
  import opened Entities
  import opened Emitter
  import opened EmitterProperties

  const FixtureOuter := "BackSupportTests"
  const FixtureInner := "TestObjects"
  const FixtureNamespace := FixtureOuter + "." + FixtureInner

  const GroupName := PropertyInfo("Name", StringType, [Required, StringLength(100, 2)])
  const GroupType := HostType("BackSupportTests.TestObjects.Group", Some(FixtureNamespace), [], [GroupName])

  const UserName := PropertyInfo("Name", StringType, [Required])
  const UserAge := PropertyInfo("Age", Int32Type, [Required, Range(Some("0"), Some("100"))])
  const UserCustomerType := PropertyInfo("CustomerType", StringType, [RegularExpression(Some("Private|Public"))])
  const UserFullName := PropertyInfo("FullName", StringType, [StringLength(100, 5), Display(Some("Full Name"))])
  const UserOptionalField := PropertyInfo("OptionalField", StringType, [])
  const UserDateOfBirth := PropertyInfo("DateOfBirth", DateTimeType, [])
  const UserGroup := PropertyInfo("Group", GroupType, [])
  const UserType := HostType("BackSupportTests.TestObjects.User", Some(FixtureNamespace), [],
                             [UserName, UserAge, UserCustomerType, UserFullName, UserOptionalField, UserDateOfBirth, UserGroup])

  /** The test assembly, holding both classes. */
  const FixtureAssembly := Assembly("BackSupportTests", [UserType, GroupType])

  /**
   * Type.IsAssignableFrom as .NET answers it for these types: object takes everything,
   * every type takes itself, and Nullable<T> takes T.
   */
  predicate DotNetAssignable(key: HostType, t: HostType) {
    key == ObjectType || key == t || key == NullableOf(t)
  }

  /** The options of the tests: default providers, the identity transformer and no base class. */
  const FixtureConfig := Configuration(DefaultEntries, DefaultRules, DotNetAssignable, x => x, None)

  /** The number of validations of each property, as the tests count them. */
  lemma UserValidationCounts()
    ensures |CollectValidations(DefaultRules, UserName.attributes, UserName)| == 1
    ensures |CollectValidations(DefaultRules, UserAge.attributes, UserAge)| == 2
    ensures |CollectValidations(DefaultRules, UserCustomerType.attributes, UserCustomerType)| == 1
    ensures |CollectValidations(DefaultRules, UserFullName.attributes, UserFullName)| == 1
    ensures |CollectValidations(DefaultRules, UserOptionalField.attributes, UserOptionalField)| == 0
    ensures |CollectValidations(DefaultRules, UserDateOfBirth.attributes, UserDateOfBirth)| == 0
    ensures |CollectValidations(DefaultRules, UserGroup.attributes, UserGroup)| == 0
    ensures |CollectValidations(DefaultRules, GroupName.attributes, GroupName)| == 2
  {
  }

  /** The descriptor a property's declared type gets from the default table. */
  function FixtureDescriptor(t: HostType): Result<TypeDefinition, Error> {
    GetTypeDefinition(DefaultEntries, t, DotNetAssignable)
  }

  // The type names the fields are written with: strings as String, Age (an int) as Int32?,
  // DateOfBirth as DateTime? and Group as Object.

  /** A string property resolves to the string entry: no later key is string, object or Nullable<string>. */
  lemma StringResolves()
    ensures FixtureDescriptor(StringType) == Ok(StringEntry.1)
    ensures RenderTypeName(StringEntry.1.hostType) == Ok("String")
  {
    PlainTypeNames();
    DefaultTable();
    forall j | 1 < j < |DefaultEntries|
      ensures !Matches(DefaultEntries[j].0, StringType, DotNetAssignable)
    {
      assert DefaultEntries[j].0.genericArguments != [StringType];
    }
    ResolvesAt(DefaultEntries, 1, StringType, DotNetAssignable);
  }

  /** An int property resolves to the later Nullable<int> entry, since Nullable<int> is assignable from int. */
  lemma Int32Resolves()
    ensures FixtureDescriptor(Int32Type) == Ok(NullableInt32Entry.1)
    ensures RenderTypeName(NullableInt32Entry.1.hostType) == Ok("Int32?")
  {
    NullableInt32TypeName();
    DefaultTable();
    forall j | 10 < j < |DefaultEntries|
      ensures !Matches(DefaultEntries[j].0, Int32Type, DotNetAssignable)
    {
      assert DefaultEntries[j].0.genericArguments != [Int32Type];
    }
    ResolvesAt(DefaultEntries, 10, Int32Type, DotNetAssignable);
  }

  /** A DateTime property resolves to the last entry, Nullable<DateTime>. */
  lemma DateTimeResolves()
    ensures FixtureDescriptor(DateTimeType) == Ok(NullableDateTimeEntry.1)
    ensures RenderTypeName(NullableDateTimeEntry.1.hostType) == Ok("DateTime?")
  {
    NullableDateTimeTypeName();
    DefaultTable();
    ResolvesAt(DefaultEntries, 15, DateTimeType, DotNetAssignable);
  }

  /** A Group property matches no key but object. */
  lemma GroupResolves()
    ensures FixtureDescriptor(GroupType) == Ok(ObjectEntry.1)
    ensures RenderTypeName(ObjectEntry.1.hostType) == Ok("Object")
  {
    DefaultTable();
    forall j | 0 < j < |DefaultEntries|
      ensures !Matches(DefaultEntries[j].0, GroupType, DotNetAssignable)
    {
      assert DefaultEntries[j].0.genericArguments != [GroupType];
      assert DefaultEntries[j].0.fullName != GroupType.fullName;
    }
    ResolvesAt(DefaultEntries, 0, GroupType, DotNetAssignable);
  }

  /** The tests' filter, a regex of User's full name, picks User and not Group out of the assembly. */
  lemma UserIsTheOnlyMatch(isMatch: (Regex, string) -> bool)
    requires isMatch(Regex(UserType.fullName), UserType.fullName)
    requires !isMatch(Regex(UserType.fullName), GroupType.fullName)
    ensures MatchingTypes([(FixtureAssembly, Regex(UserType.fullName))], isMatch) == [UserType]
  {
    var filters := [(FixtureAssembly, Regex(UserType.fullName))];
    assert filters[..0] == [];
    var types := FixtureAssembly.types;
    assert types[..1] == [UserType] && types[..1][..0] == [];
    assert TypesMatching(types[..1], Regex(UserType.fullName), isMatch) == [UserType];
  }

  /**
   * With the tests' options every class is generated without an exception: every type is
   * assignable to object, so every property finds a descriptor, and every default rule
   * matches its attribute.
   */
  lemma FixtureTypesRender(t: HostType)
    ensures TypeOutput(FixtureConfig, t).Ok?
  {
    DefaultTypeOutputSucceeds(FixtureConfig, t);
  }

  lemma FixtureNamesUndotted()
    ensures FixtureOuter != "" && '.' !in FixtureOuter && '.' !in FixtureInner
  {
  }

  /**
   * Generating a type of the test namespace, such as User, from a fresh cache declares
   * BackSupportTests and then BackSupportTests.TestObjects, and the class text follows.
   */
  lemma TestNamespaceBodies(t: HostType)
    requires t.namespace == Some(FixtureNamespace)
    ensures var b := Bodies(FixtureConfig, [], [t]);
            && b.0.Ok?
            && b.1 == [FixtureOuter, FixtureNamespace]
            && StartsWith(b.0.value, DeclareLine(FixtureOuter) + DeclareLine(FixtureNamespace))
  {
    FixtureTypesRender(t);
    FixtureNamesUndotted();
    SingleTypeBodies(FixtureConfig, t, FixtureOuter, FixtureInner);
  }
}
