/**
 * The entity builder's results (EntityDefinition, FieldDefinition) and the functions
 * that say what GetEntityDefinition and GetPropertyDefinition compute.
 */
module Entities {
  import opened Wrappers
  import opened Host
  import opened TypeRegistry
  import opened Validation

  /** FieldDefinition: one property with its resolved type and its rules. */
  datatype FieldDefinition = FieldDefinition(
    name: string,
    typeDefinition: TypeDefinition,
    validations: seq<ValidationDefinition>)

  /** EntityDefinition: one type to generate, its JavaScript names and its fields. */
  datatype EntityDefinition = EntityDefinition(
    dotNetName: string,
    jsName: string,
    jsBaseClassName: Option<string>,
    fields: seq<FieldDefinition>)

  /** string.IsNullOrEmpty. */
  predicate IsNullOrEmpty(s: Option<string>) {
    s.None? || s.value == ""
  }

  /** What the builder reads from GeneratorOptions, with IsAssignableFrom. */
  datatype Configuration = Configuration(
    types: seq<Entry>,
    rules: ValidationRules,
    isAssignableFrom: (HostType, HostType) -> bool,
    nameTransformer: string -> string,
    baseClass: Option<string>)

  /**
   * GetPropertyDefinition: the property's name, the descriptor its declared type resolves
   * to and its rules in attribute order; the type lookup's exception when it has none.
   */
  function BuildField(config: Configuration, property: PropertyInfo): (r: Result<FieldDefinition, Error>)
    ensures r.Err? <==> GetTypeDefinition(config.types, property.propertyType, config.isAssignableFrom).Err?
    ensures r.Err? ==> r.error == NoTypeDefinition(property.propertyType)
    ensures r.Ok? ==> && r.value.name == property.name
                      && GetTypeDefinition(config.types, property.propertyType, config.isAssignableFrom) == Ok(r.value.typeDefinition)
                      && r.value.validations == CollectValidations(config.rules, property.attributes, property)
  {
    var typeDefinition :- GetTypeDefinition(config.types, property.propertyType, config.isAssignableFrom);
    Ok(FieldDefinition(property.name, typeDefinition, CollectValidations(config.rules, property.attributes, property)))
  }

  /**
   * The fields array of GetEntityDefinition: one field per property, same order, or the
   * exception of the first property whose type has no descriptor.
   */
  function BuildFields(config: Configuration, properties: seq<PropertyInfo>): (r: Result<seq<FieldDefinition>, Error>)
    ensures r.Ok? <==> forall i :: 0 <= i < |properties| ==> BuildField(config, properties[i]).Ok?
    ensures r.Ok? ==> |r.value| == |properties|
    ensures r.Ok? ==> forall i :: 0 <= i < |properties| ==> BuildField(config, properties[i]) == Ok(r.value[i])
    ensures r.Err? ==> exists i :: 0 <= i < |properties| && BuildField(config, properties[i]) == Err(r.error)
                                   && forall j :: 0 <= j < i ==> BuildField(config, properties[j]).Ok?
  {
    if properties == [] then Ok([])
    else
      var n := |properties| - 1;
      var front := BuildFields(config, properties[..n]);
      assert forall i :: 0 <= i < n ==> properties[..n][i] == properties[i];
      match front
      case Err(e) => Err(e)
      case Ok(fields) =>
        match BuildField(config, properties[n])
        case Err(e) => Err(e)
        case Ok(field) => Ok(fields + [field])
  }

  /**
   * GetEntityDefinition: the full name, the transformed JavaScript name, the base class
   * when one is configured (non-null, non-empty) and the fields of every property.
   */
  function BuildEntity(config: Configuration, t: HostType): (r: Result<EntityDefinition, Error>)
    ensures r.Err? <==> exists i :: 0 <= i < |t.properties| && BuildField(config, t.properties[i]).Err?
    ensures r.Ok? ==> && r.value.dotNetName == t.fullName
                      && r.value.jsName == config.nameTransformer(t.fullName)
                      && (r.value.jsBaseClassName.Some? <==> !IsNullOrEmpty(config.baseClass))
                      && (r.value.jsBaseClassName.Some? ==> r.value.jsBaseClassName == config.baseClass)
    ensures r.Ok? ==> && |r.value.fields| == |t.properties|
                      && forall i :: 0 <= i < |t.properties| ==> r.value.fields[i].name == t.properties[i].name
  {
    var fields :- BuildFields(config, t.properties);
    var base := if IsNullOrEmpty(config.baseClass) then None else config.baseClass;
    Ok(EntityDefinition(t.fullName, config.nameTransformer(t.fullName), base, fields))
  }
}
