/**
 * What the generator gets from .NET reflection, supplied as plain values: types with
 * their properties, properties with their attributes, assemblies with their types.
 * The reflection services the generator calls (Type.IsAssignableFrom, Regex.IsMatch,
 * Directory.Exists) are functions in a Runtime record.
 */
module Host {
  import opened Wrappers

  /**
   * A reflected type: Type.FullName, Type.Namespace (null for the global namespace),
   * Type.GetGenericArguments() and Type.GetProperties(), in reflection order.
   */
  datatype HostType = HostType(
    fullName: string,
    namespace: Option<string>,
    genericArguments: seq<HostType>,
    properties: seq<PropertyInfo>)

  /** A reflected property: its name, its declared type and GetCustomAttributes(true) in order. */
  datatype PropertyInfo = PropertyInfo(name: string, propertyType: HostType, attributes: seq<Attribute>)

  /**
   * The data-annotation attributes the generator knows of, with the constructor
   * arguments it reads; the bounds of RangeAttribute are already rendered by ToString().
   * Other stands for every attribute of any other runtime type.
   */
  datatype Attribute =
    | Required
    | StringLength(maximumLength: int, minimumLength: int)
    | Range(minimum: Option<string>, maximum: Option<string>)
    | RegularExpression(pattern: Option<string>)
    | Display(description: Option<string>)
    | Other(typeName: string)

  /** A loaded assembly and Assembly.GetTypes(). */
  datatype Assembly = Assembly(name: string, types: seq<HostType>)

  /** A compiled regular expression, known by its pattern. */
  datatype Regex = Regex(pattern: string)

  /** The services of the .NET runtime that the model does not look inside. */
  datatype Runtime = Runtime(
    isAssignableFrom: (HostType, HostType) -> bool,
    isMatch: (Regex, string) -> bool,
    directoryExists: string -> bool)

  /** The exceptions the generator throws. */
  datatype Error =
    | NoTypeDefinition(hostType: HostType)         // ArgumentException of GetTypeDefinition
    | AttributeMismatch(attribute: Attribute)      // ArgumentException of a validation snippet
    | MissingGenericArgument(hostType: HostType)   // IndexOutOfRangeException of GetGenericArguments()[0]
    | NullNamespace(hostType: HostType)            // NullReferenceException of Namespace.Split
    | InvalidOptions(message: string)              // ArgumentException of GeneratorOptions.Validate
    | DuplicateAssembly(assembly: Assembly)        // ArgumentException of Dictionary.Add

  const ObjectType := HostType("System.Object", Some("System"), [], [])
  const StringType := HostType("System.String", Some("System"), [], [])
  const CharType := HostType("System.Char", Some("System"), [], [])
  const Int32Type := HostType("System.Int32", Some("System"), [], [])
  const Int64Type := HostType("System.Int64", Some("System"), [], [])
  const DoubleType := HostType("System.Double", Some("System"), [], [])
  const SingleType := HostType("System.Single", Some("System"), [], [])
  const BooleanType := HostType("System.Boolean", Some("System"), [], [])
  const DateTimeType := HostType("System.DateTime", Some("System"), [], [])

  /** How the FullName of a closed System.Nullable`1 begins. */
  const NullablePrefix: string := "System.Nullable`1[["

  /** System.Nullable`1 closed over a value type of mscorlib; its FullName qualifies the argument with its assembly. */
  function NullableOf(arg: HostType): (t: HostType)
    ensures |NullablePrefix| <= |t.fullName| && t.fullName[..|NullablePrefix|] == NullablePrefix
    ensures t.genericArguments == [arg]
  {
    HostType(NullablePrefix + arg.fullName + ", mscorlib, Version=4.0.0.0, Culture=neutral, PublicKeyToken=b77a5c561934e089]]",
             Some("System"), [arg], [])
  }

  const NullableCharType := NullableOf(CharType)
  const NullableInt32Type := NullableOf(Int32Type)
  const NullableInt64Type := NullableOf(Int64Type)
  const NullableDoubleType := NullableOf(DoubleType)
  const NullableSingleType := NullableOf(SingleType)
  const NullableBooleanType := NullableOf(BooleanType)
  const NullableDateTimeType := NullableOf(DateTimeType)
}
