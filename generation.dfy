/**
 * The generator's objects: GeneratorOptions with its configuration checks, the file
 * writer, and Generator, whose methods build the JavaScript text with loops proved
 * against the functions of modules Entities and Emitter.
 */
module Generation {
  import opened Wrappers
  import opened Host
  import opened Text
  import opened TypeRegistry
  import opened Validation
  import opened Entities
  import opened Emitter
  import opened EmitterProperties

  /** IFileUtils: every WriteFile call, in order, as (file name, contents). */
  class FileSink {
    var writes: seq<(string, string)>

    constructor ()
      ensures writes == []
    {
      writes := [];
    }

    method WriteFile(filename: string, contents: string)
      modifies this
      ensures writes == old(writes) + [(filename, contents)]
    {
      writes := writes + [(filename, contents)];
    }
  }

  const OutputFileMissing := "The OutputFile must be set"
  const OutputDirectoryMissing := "The OutputFile parent directory must exist"
  const TypeProviderMissing := "The TypeDefinitionProvider must be set"
  const ValidationProviderMissing := "The ValidationDefinitionProvider must be set"
  const TransformerMissing := "The EntityJsNameTransformer must be set"

  class GeneratorOptions {
    var typeDefinitionProvider: DefaultTypeDefinitionProvider?
    var validationDefinitionProvider: DefaultValidationDefinitionProvider?
    var entityJsNameTransformer: Option<string -> string>
    var entityJsBaseClass: Option<string>
    var outputFile: Option<string>

    /** The defaults: identity names, Backbone.Model as base class, the default providers, no output file. */
    constructor ()
      ensures typeDefinitionProvider != null && fresh(typeDefinitionProvider)
      ensures typeDefinitionProvider.entries == DefaultEntries
      ensures validationDefinitionProvider != null && fresh(validationDefinitionProvider)
      ensures validationDefinitionProvider.rules == DefaultRules
      ensures entityJsNameTransformer.Some? && forall name :: entityJsNameTransformer.value(name) == name
      ensures entityJsBaseClass == Some("Backbone.Model")
      ensures outputFile.None?
    {
      entityJsNameTransformer := Some(name => name);
      entityJsBaseClass := Some("Backbone.Model");
      validationDefinitionProvider := new DefaultValidationDefinitionProvider();
      typeDefinitionProvider := new DefaultTypeDefinitionProvider();
      outputFile := None;
    }

    /** Everything Validate checks holds. */
    predicate Complete(parentDirectoryExists: string -> bool)
      reads this
    {
      && outputFile.Some? && parentDirectoryExists(outputFile.value)
      && typeDefinitionProvider != null && validationDefinitionProvider != null
      && entityJsNameTransformer.Some?
    }

    /**
     * Validate: the checks run in the source's order and the first that fails throws its
     * message. Whether the output file's parent directory exists is a parameter.
     */
    function Validate(parentDirectoryExists: string -> bool): (r: Outcome<Error>)
      reads this
      ensures r.Pass? <==> Complete(parentDirectoryExists)
      ensures r == Fail(InvalidOptions(OutputFileMissing)) <==> outputFile.None?
      ensures r == Fail(InvalidOptions(OutputDirectoryMissing)) <==>
                outputFile.Some? && !parentDirectoryExists(outputFile.value)
      ensures r == Fail(InvalidOptions(TypeProviderMissing)) <==>
                outputFile.Some? && parentDirectoryExists(outputFile.value) && typeDefinitionProvider == null
      ensures r == Fail(InvalidOptions(ValidationProviderMissing)) <==>
                outputFile.Some? && parentDirectoryExists(outputFile.value) && typeDefinitionProvider != null
                && validationDefinitionProvider == null
      ensures r == Fail(InvalidOptions(TransformerMissing)) <==>
                outputFile.Some? && parentDirectoryExists(outputFile.value) && typeDefinitionProvider != null
                && validationDefinitionProvider != null && entityJsNameTransformer.None?
    {
      if outputFile.None? then Fail(InvalidOptions(OutputFileMissing))
      else if !parentDirectoryExists(outputFile.value) then Fail(InvalidOptions(OutputDirectoryMissing))
      else if typeDefinitionProvider == null then Fail(InvalidOptions(TypeProviderMissing))
      else if validationDefinitionProvider == null then Fail(InvalidOptions(ValidationProviderMissing))
      else if entityJsNameTransformer.None? then Fail(InvalidOptions(TransformerMissing))
      else Pass
    }
  }

  class Generator {
    const options: GeneratorOptions
    const fileUtils: FileSink
    /** The assembly → type-name filter dictionary, in insertion order. */
    var filters: seq<(Assembly, Regex)>
    /** The namespaces declared so far by this generator. */
    var namespaceCache: seq<string>

    /** The dictionary holds each assembly once; the cache holds each namespace once. */
    ghost predicate Valid()
      reads this
    {
      && (forall i, j :: 0 <= i < j < |filters| ==> filters[i].0 != filters[j].0)
      && NoDuplicates(namespaceCache)
    }

    constructor (options: GeneratorOptions, fileUtils: FileSink)
      ensures Valid()
      ensures this.options == options && this.fileUtils == fileUtils
      ensures filters == [] && namespaceCache == []
    {
      this.options := options;
      this.fileUtils := fileUtils;
      filters := [];
      namespaceCache := [];
    }

    /** The one-argument constructor writes through a FileUtils of its own. */
    constructor WithOwnFileUtils(options: GeneratorOptions)
      ensures Valid()
      ensures this.options == options && fresh(fileUtils) && fileUtils.writes == []
      ensures filters == [] && namespaceCache == []
    {
      this.options := options;
      fileUtils := new FileSink();
      filters := [];
      namespaceCache := [];
    }

    predicate HasFilter(assembly: Assembly)
      reads this
    {
      exists i :: 0 <= i < |filters| && filters[i].0 == assembly
    }

    /** AddFilter: Dictionary.Add, which throws for an assembly that already has a filter. */
    method AddFilter(assembly: Assembly, matcher: Regex) returns (r: Outcome<Error>)
      requires Valid()
      modifies this`filters
      ensures Valid()
      ensures old(HasFilter(assembly)) ==> r == Fail(DuplicateAssembly(assembly)) && filters == old(filters)
      ensures !old(HasFilter(assembly)) ==> r.Pass? && filters == old(filters) + [(assembly, matcher)]
    {
      var i := 0;
      while i < |filters|
        invariant 0 <= i <= |filters|
        invariant forall k :: 0 <= k < i ==> filters[k].0 != assembly
      {
        if filters[i].0 == assembly {
          return Fail(DuplicateAssembly(assembly));
        }
        i := i + 1;
      }
      filters := filters + [(assembly, matcher)];
      r := Pass;
    }

    /** The options are ready for the entity builder (what Validate guarantees about the providers). */
    predicate Configured()
      reads options
    {
      options.typeDefinitionProvider != null && options.validationDefinitionProvider != null
      && options.entityJsNameTransformer.Some?
    }

    /** What the entity builder reads from the options, with the runtime's IsAssignableFrom. */
    function Config(isAssignableFrom: (HostType, HostType) -> bool): Configuration
      requires Configured()
      reads options, options.typeDefinitionProvider, options.validationDefinitionProvider
    {
      Configuration(options.typeDefinitionProvider.entries, options.validationDefinitionProvider.rules,
                    isAssignableFrom, options.entityJsNameTransformer.value, options.entityJsBaseClass)
    }

    /**
     * GenerateNamespace: walks the cumulative prefixes of Type.Namespace, writing a
     * declaration for each one not yet cached and caching it.
     */
    method GenerateNamespace(t: HostType) returns (r: Result<string, Error>)
      modifies this`namespaceCache
      ensures t.namespace.None? ==> r == Err(NullNamespace(t)) && namespaceCache == old(namespaceCache)
      ensures t.namespace.Some? ==>
                var e := Declare(old(namespaceCache), NamespacePrefixes(t.namespace.value));
                r == Ok(e.text) && namespaceCache == e.cache
    {
      if t.namespace.None? {
        return Err(NullNamespace(t));
      }
      var components := Split(t.namespace.value, '.');
      ghost var prefixes := NamespacePrefixes(t.namespace.value);
      ghost var whole := Declare(namespaceCache, prefixes);
      var currentNamespace := "";
      var sb := "";
      var i := 0;
      while i < |components|
        invariant 0 <= i <= |components|
        invariant PrefixesFrom(currentNamespace, components[i..]) == prefixes[i..]
        invariant sb + Declare(namespaceCache, prefixes[i..]).text == whole.text
        invariant Declare(namespaceCache, prefixes[i..]).cache == whole.cache
      {
        ghost var before := namespaceCache;
        ghost var sbBefore := sb;
        assert components[i..][1..] == components[i + 1..];
        assert prefixes[i..][1..] == prefixes[i + 1..];
        if currentNamespace != "" {
          currentNamespace := currentNamespace + ".";
        }
        currentNamespace := currentNamespace + components[i];
        assert prefixes[i] == currentNamespace;
        var step := DeclareOne(before, currentNamespace);
        assert Declare(before, prefixes[i..]).text == step.text + Declare(step.cache, prefixes[i + 1..]).text;
        if currentNamespace !in namespaceCache {
          sb := sb + DeclareLine(currentNamespace);
          namespaceCache := namespaceCache + [currentNamespace];
        }
        assert namespaceCache == step.cache && sb == sbBefore + step.text;
        ConcatAssociates(sbBefore, step.text, Declare(step.cache, prefixes[i + 1..]).text);
        i := i + 1;
      }
      assert prefixes[i..] == [];
      assert sb + "" == sb;
      r := Ok(sb);
    }

    /** GetValidations: the registry's rule for each attribute in order, nulls dropped. */
    method GetValidations(property: PropertyInfo) returns (vals: seq<ValidationDefinition>)
      requires options.validationDefinitionProvider != null
      ensures vals == CollectValidations(options.validationDefinitionProvider.rules, property.attributes, property)
    {
      var rules := options.validationDefinitionProvider.rules;
      var attrs := property.attributes;
      vals := [];
      var i := 0;
      while i < |attrs|
        invariant 0 <= i <= |attrs|
        invariant vals == CollectValidations(rules, attrs[..i], property)
      {
        assert attrs[..i + 1][..i] == attrs[..i];
        var vd2 := GetValidationDefinition(rules, attrs[i], property);
        if vd2.Some? {
          vals := vals + [vd2.value];
        }
        i := i + 1;
      }
      assert attrs[..i] == attrs;
    }

    /** GetPropertyDefinition: the name, the resolved descriptor and the validations of a property. */
    method GetPropertyDefinition(property: PropertyInfo, isAssignableFrom: (HostType, HostType) -> bool)
      returns (r: Result<FieldDefinition, Error>)
      requires Configured()
      ensures r == BuildField(Config(isAssignableFrom), property)
    {
      var typeDefinition := GetTypeDefinition(options.typeDefinitionProvider.entries, property.propertyType, isAssignableFrom);
      if typeDefinition.Err? {
        return Err(typeDefinition.error);
      }
      var validations := GetValidations(property);
      r := Ok(FieldDefinition(property.name, typeDefinition.value, validations));
    }

    /** GetEntityDefinition: the names of the type and the Fields array filled by index. */
    method GetEntityDefinition(t: HostType, isAssignableFrom: (HostType, HostType) -> bool)
      returns (r: Result<EntityDefinition, Error>)
      requires Configured()
      ensures r == BuildEntity(Config(isAssignableFrom), t)
    {
      ghost var config := Config(isAssignableFrom);
      var jsName := options.entityJsNameTransformer.value(t.fullName);
      var jsBaseClassName := if IsNullOrEmpty(options.entityJsBaseClass) then None else options.entityJsBaseClass;
      var properties := t.properties;
      var fields := new FieldDefinition[|properties|];
      var i := 0;
      while i < |properties|
        invariant 0 <= i <= |properties|
        invariant forall k :: 0 <= k < i ==> BuildField(config, properties[k]) == Ok(fields[k])
      {
        var field := GetPropertyDefinition(properties[i], isAssignableFrom);
        if field.Err? {
          assert BuildFields(config, properties) == Err(field.error);
          return Err(field.error);
        }
        fields[i] := field.value;
        i := i + 1;
      }
      var built := BuildFields(config, properties);
      assert built.Ok?;
      assert fields[..] == built.value;
      r := Ok(EntityDefinition(t.fullName, jsName, jsBaseClassName, fields[..]));
    }

    /** The 'validations' array of one field: the snippets joined by ", ". */
    method RenderValidations(validations: seq<ValidationDefinition>) returns (r: Result<string, Error>)
      ensures r == ValidationsText(validations)
    {
      ghost var parts := SnippetParts(validations);
      var sb := "";
      var j := 0;
      assert parts[..0] == [];
      while j < |validations|
        invariant 0 <= j <= |validations|
        invariant ConcatAll(parts[..j]) == Ok(sb)
      {
        var snippet := GetJsValidationSnippet(validations[j]);
        ConcatStep(parts, j, sb);
        if snippet.Err? {
          return Err(snippet.error);
        }
        var separator := if j < |validations| - 1 then ", " else "";
        ConcatAssociates(sb, snippet.value, separator);
        sb := sb + snippet.value + separator;
        j := j + 1;
      }
      assert parts[..j] == parts;
      r := Ok(sb);
    }

    /** One line of the field manifest: name, rendered type name, validations, then "," unless last. */
    method RenderField(field: FieldDefinition, isLast: bool) returns (r: Result<string, Error>)
      ensures r == FieldText(field, isLast)
    {
      var tn := field.typeDefinition.hostType.fullName;
      if StartsWith(tn, NullablePrefix) {
        if field.typeDefinition.hostType.genericArguments == [] {
          return Err(MissingGenericArgument(field.typeDefinition.hostType));
        }
        tn := field.typeDefinition.hostType.genericArguments[0].fullName + "?";
      }
      if StartsWith(tn, "System.") {
        tn := tn[7..];
      }
      assert RenderTypeName(field.typeDefinition.hostType) == Ok(tn);
      var validations := RenderValidations(field.validations);
      if validations.Err? {
        return Err(validations.error);
      }
      var line := "    '" + field.name + "': {'type': '" + tn + "', 'validations': [";
      r := Ok(line + validations.value + "]}" + (if isLast then NewLine else "," + NewLine));
    }

    /** The class definition and constructor part of GenerateType, up to "fields = {". */
    method RenderClassOpening(jsName: string, jsShortName: string, jsBaseClassName: Option<string>) returns (sb: string)
      ensures sb == ClassOpening(jsName, jsShortName, jsBaseClassName)
    {
      var hasBase := !IsNullOrEmpty(jsBaseClassName);
      sb := HeaderLine(jsName);
      if hasBase {
        sb := sb + ExtendsLine(jsShortName, jsBaseClassName.value);
      }
      sb := sb + ConstructorLine(jsShortName);
      if hasBase {
        sb := sb + SuperCallLine(jsShortName);
      }
      sb := sb + ConstructorClose + FieldsOpenLine(jsShortName);
    }

    /** The field-definition loop of GenerateType: one line per field, in order. */
    method RenderFields(fields: seq<FieldDefinition>) returns (r: Result<string, Error>)
      ensures r == FieldsText(fields)
    {
      ghost var parts := FieldParts(fields);
      var sb := "";
      var i := 0;
      assert parts[..0] == [];
      while i < |fields|
        invariant 0 <= i <= |fields|
        invariant ConcatAll(parts[..i]) == Ok(sb)
      {
        var line := RenderField(fields[i], i == |fields| - 1);
        ConcatStep(parts, i, sb);
        if line.Err? {
          return Err(line.error);
        }
        sb := sb + line.value;
        i := i + 1;
      }
      assert parts[..i] == parts;
      r := Ok(sb);
    }

    /** GenerateType: the class of the entity definition of t, fields in order. */
    method GenerateType(t: HostType, isAssignableFrom: (HostType, HostType) -> bool) returns (r: Result<string, Error>)
      requires Configured()
      ensures r == TypeOutput(Config(isAssignableFrom), t)
    {
      var built := GetEntityDefinition(t, isAssignableFrom);
      if built.Err? {
        return Err(built.error);
      }
      var entityDefinition := built.value;
      var jsName := entityDefinition.jsName;
      var jsShortName := jsName[LastIndexOf(jsName, '.') + 1..];
      assert LastIndexOf(jsName, '.') < 0 ==> jsName[0..] == jsName;
      assert jsShortName == ShortName(jsName);
      var opening := RenderClassOpening(jsName, jsShortName, entityDefinition.jsBaseClassName);
      var fields := RenderFields(entityDefinition.fields);
      if fields.Err? {
        return Err(fields.error);
      }
      r := Ok(opening + fields.value + ("  };" + NewLine + "  return " + jsShortName + ";" + NewLine + "}).call(this);" + NewLine));
    }

    /** The first loop of Generate: the matching types of each filtered assembly, in order. */
    method CollectMatchingTypes(isMatch: (Regex, string) -> bool) returns (matchingTypes: seq<HostType>)
      ensures matchingTypes == MatchingTypes(filters, isMatch)
    {
      matchingTypes := [];
      var i := 0;
      while i < |filters|
        invariant 0 <= i <= |filters|
        invariant matchingTypes == MatchingTypes(filters[..i], isMatch)
      {
        var assembly := filters[i].0;
        var f := filters[i].1;
        ghost var before := matchingTypes;
        var types := assembly.types;
        var j := 0;
        while j < |types|
          invariant 0 <= j <= |types|
          invariant matchingTypes == before + TypesMatching(types[..j], f, isMatch)
        {
          assert types[..j + 1][..j] == types[..j] && types[..j + 1][j] == types[j];
          if isMatch(f, types[j].fullName) {
            matchingTypes := matchingTypes + [types[j]];
          }
          j := j + 1;
        }
        assert types[..j] == types;
        assert filters[..i + 1][..i] == filters[..i] && filters[..i + 1][i] == filters[i];
        i := i + 1;
      }
      assert filters[..i] == filters;
    }

    /** One iteration of Generate's second loop. */
    method GenerateStep(t: HostType, isAssignableFrom: (HostType, HostType) -> bool) returns (r: Result<string, Error>)
      requires Configured() && NoDuplicates(namespaceCache)
      modifies this`namespaceCache
      ensures NoDuplicates(namespaceCache)
      ensures (r, namespaceCache) == BodyStep(Config(isAssignableFrom), old(namespaceCache), t)
    {
      ghost var cacheBefore := namespaceCache;
      var ns := GenerateNamespace(t);
      if ns.Err? {
        return Err(ns.error);
      }
      DeclareKeepsDistinct(cacheBefore, NamespacePrefixes(t.namespace.value));
      var ty := GenerateType(t, isAssignableFrom);
      if ty.Err? {
        return Err(ty.error);
      }
      r := Ok(ns.value + ty.value);
    }

    /** The second loop of Generate: namespace declarations and class of each type in turn. */
    method GenerateBodies(types: seq<HostType>, isAssignableFrom: (HostType, HostType) -> bool) returns (r: Result<string, Error>)
      requires Configured() && NoDuplicates(namespaceCache)
      modifies this`namespaceCache
      ensures NoDuplicates(namespaceCache)
      ensures (r, namespaceCache) == Bodies(Config(isAssignableFrom), old(namespaceCache), types)
    {
      ghost var config := Config(isAssignableFrom);
      ghost var whole := Bodies(config, namespaceCache, types);
      var body := "";
      var k := 0;
      assert types[0..] == types;
      if whole.0.Ok? {
        assert "" + whole.0.value == whole.0.value;
      }
      while k < |types|
        invariant 0 <= k <= |types|
        invariant NoDuplicates(namespaceCache)
        invariant Config(isAssignableFrom) == config
        invariant Continues(whole, body, Bodies(config, namespaceCache, types[k..]))
      {
        assert types[k..][0] == types[k] && types[k..][1..] == types[k + 1..];
        ghost var cache := namespaceCache;
        var step := GenerateStep(types[k], isAssignableFrom);
        ContinuesStep(config, cache, types[k..], whole, body);
        if step.Err? {
          return step;
        }
        body := body + step.value;
        k := k + 1;
      }
      assert types[k..] == [];
      assert body + "" == body;
      r := Ok(body);
    }

    /**
     * Generate: the configuration checks first; then the matching types of each filtered
     * assembly, assemblies in insertion order; then, for each type, its namespace
     * declarations and its class; the preamble and the epilogue around them; and one
     * WriteFile of the whole text. Nothing is written when anything throws.
     */
    method Generate(runtime: Runtime) returns (r: Outcome<Error>)
      requires Valid()
      modifies this`namespaceCache, fileUtils
      ensures Valid()
      ensures options.Validate(runtime.directoryExists).Fail? ==>
                && r == options.Validate(runtime.directoryExists)
                && namespaceCache == old(namespaceCache) && fileUtils.writes == old(fileUtils.writes)
      ensures options.Validate(runtime.directoryExists).Pass? ==>
                && Configured()
                && var bodies := Bodies(Config(runtime.isAssignableFrom), old(namespaceCache), MatchingTypes(filters, runtime.isMatch));
                && namespaceCache == bodies.1
                && (bodies.0.Ok? ==> r.Pass? && fileUtils.writes == old(fileUtils.writes) + [(options.outputFile.value, Preamble + bodies.0.value + Epilogue)])
                && (bodies.0.Err? ==> r == Fail(bodies.0.error) && fileUtils.writes == old(fileUtils.writes))
    {
      var validation := options.Validate(runtime.directoryExists);
      if validation.Fail? {
        return validation;
      }
      var matchingTypes := CollectMatchingTypes(runtime.isMatch);
      var body := GenerateBodies(matchingTypes, runtime.isAssignableFrom);
      if body.Err? {
        return Fail(body.error);
      }
      fileUtils.WriteFile(options.outputFile.value, Preamble + body.value + Epilogue);
      r := Pass;
    }
  }

  /** The text so far, followed by what the rest of the loop yields, gives the whole result. */
  ghost predicate Continues(whole: (Result<string, Error>, seq<string>), body: string, rest: (Result<string, Error>, seq<string>)) {
    && whole.1 == rest.1
    && (rest.0.Ok? ==> whole.0 == Ok(body + rest.0.value))
    && (rest.0.Err? ==> whole.0 == rest.0)
  }

  /** One iteration of Generate's second loop keeps Continues, or ends with the whole result. */
  lemma ContinuesStep(config: Configuration, cache: seq<string>, types: seq<HostType>,
                      whole: (Result<string, Error>, seq<string>), body: string)
    requires types != []
    requires Continues(whole, body, Bodies(config, cache, types))
    ensures var step := BodyStep(config, cache, types[0]);
            && (step.0.Err? ==> whole == step)
            && (step.0.Ok? ==> Continues(whole, body + step.0.value, Bodies(config, step.1, types[1..])))
  {
    var step := BodyStep(config, cache, types[0]);
    if step.0.Ok? {
      var rest := Bodies(config, step.1, types[1..]);
      if rest.0.Ok? {
        ConcatAssociates(body, step.0.value, rest.0.value);
      }
    }
  }
}
