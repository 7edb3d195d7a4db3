/**
 * The JavaScript text the generator writes: the namespace objects (GenerateNamespace),
 * the class of one entity with its field table (GenerateType), and the fixed text around
 * them (Generate). The functions here say what that text is; the Generator class in
 * module Generation builds it with StringBuilder-style loops proved against them.
 */
module Emitter {
  import opened Wrappers
  import opened Host
  import opened Text
  import opened TypeRegistry
  import opened Validation
  import opened Entities

  // ----- namespaces -----

  /** The line that declares one namespace object without replacing an existing one. */
  function DeclareLine(prefix: string): string {
    "this." + prefix + " = " + "this." + prefix + " = " + "this." + prefix + " || {};" + NewLine
  }

  /** The next cumulative namespace: a dot is inserted only after a non-empty current one. */
  function NextPrefix(current: string, component: string): string {
    (if current != "" then current + "." else current) + component
  }

  /** The cumulative namespaces visited while walking the components after current. */
  function PrefixesFrom(current: string, components: seq<string>): (ps: seq<string>)
    ensures |ps| == |components|
    decreases |components|
  {
    if components == [] then []
    else
      var next := NextPrefix(current, components[0]);
      [next] + PrefixesFrom(next, components[1..])
  }

  /** The namespaces GenerateNamespace declares for Type.Namespace, outermost first. */
  function NamespacePrefixes(ns: string): seq<string> {
    PrefixesFrom("", Split(ns, '.'))
  }

  /** Generated text together with the namespace cache after it. */
  datatype Emission = Emission(text: string, cache: seq<string>)

  /** One namespace: nothing when it is cached, otherwise its line, and it joins the cache. */
  function DeclareOne(cache: seq<string>, prefix: string): Emission {
    if prefix in cache then Emission("", cache) else Emission(DeclareLine(prefix), cache + [prefix])
  }

  /**
   * Declaring prefixes in order: a prefix already in the cache writes nothing; a new one
   * writes its line and is appended to the cache.
   */
  function Declare(cache: seq<string>, prefixes: seq<string>): (e: Emission)
    ensures |cache| <= |e.cache| && e.cache[..|cache|] == cache
    decreases |prefixes|
  {
    if prefixes == [] then Emission("", cache)
    else
      var first := DeclareOne(cache, prefixes[0]);
      var rest := Declare(first.cache, prefixes[1..]);
      assert rest.cache[..|cache|] == first.cache[..|cache|];
      Emission(first.text + rest.text, rest.cache)
  }

  /**
   * GenerateNamespace: a null Namespace throws on Split; otherwise the declarations of
   * its cumulative prefixes against the cache.
   */
  function NamespaceStep(cache: seq<string>, t: HostType): (r: Result<Emission, Error>)
    ensures r.Err? <==> t.namespace.None?
    ensures r.Err? ==> r.error == NullNamespace(t)
  {
    match t.namespace
    case None => Err(NullNamespace(t))
    case Some(ns) => Ok(Declare(cache, NamespacePrefixes(ns)))
  }

  /** The declaration lines of a list of namespaces, in order. */
  function Lines(prefixes: seq<string>): string {
    if prefixes == [] then "" else DeclareLine(prefixes[0]) + Lines(prefixes[1..])
  }

  predicate NoDuplicates(s: seq<string>) {
    forall i, j :: 0 <= i < j < |s| ==> s[i] != s[j]
  }

  // ----- one entity -----

  /** The short class name: the JavaScript name after its last dot. */
  function ShortName(jsName: string): (r: string)
    ensures '.' !in r
    ensures '.' !in jsName ==> r == jsName
    ensures '.' in jsName ==> exists k | 0 <= k < |jsName| :: jsName == jsName[..k] + "." + r
  {
    AfterLast(jsName, '.')
  }

  /** Removes one leading "System.". */
  function StripSystem(tn: string): (r: string)
    ensures StartsWith(tn, "System.") ==> "System." + r == tn
    ensures !StartsWith(tn, "System.") ==> r == tn
  {
    if StartsWith(tn, "System.") then tn[7..] else tn
  }

  /**
   * The 'type' written for a field: a Nullable`1 type is named by its first generic
   * argument with "?" appended (IndexOutOfRange when it has none), and then one leading
   * "System." is removed.
   */
  function RenderTypeName(t: HostType): (r: Result<string, Error>)
    ensures r.Err? <==> StartsWith(t.fullName, NullablePrefix) && t.genericArguments == []
    ensures r.Err? ==> r.error == MissingGenericArgument(t)
    ensures r.Ok? && StartsWith(t.fullName, NullablePrefix) ==> r.value == StripSystem(t.genericArguments[0].fullName + "?")
    ensures !StartsWith(t.fullName, NullablePrefix) ==> r == Ok(StripSystem(t.fullName))
  {
    if StartsWith(t.fullName, NullablePrefix) then
      if t.genericArguments == [] then Err(MissingGenericArgument(t))
      else Ok(StripSystem(t.genericArguments[0].fullName + "?"))
    else
      Ok(StripSystem(t.fullName))
  }

  /**
   * Appending pieces to a StringBuilder: the concatenation of all pieces, or the exception
   * of the first piece that throws.
   */
  function ConcatAll(parts: seq<Result<string, Error>>): (r: Result<string, Error>)
    ensures r.Ok? <==> forall k :: 0 <= k < |parts| ==> parts[k].Ok?
    ensures r.Err? ==> exists k :: 0 <= k < |parts| && parts[k] == Err(r.error)
                                   && forall j :: 0 <= j < k ==> parts[j].Ok?
    ensures parts == [] ==> r == Ok("")
  {
    if parts == [] then Ok("")
    else
      var n := |parts| - 1;
      var front := ConcatAll(parts[..n]);
      assert forall k :: 0 <= k < n ==> parts[..n][k] == parts[k];
      match front
      case Err(e) => Err(e)
      case Ok(s) =>
        match parts[n]
        case Err(e) => Err(e)
        case Ok(t) => Ok(s + t)
  }

  /** One more piece appended: its text when it renders, otherwise the first exception of all pieces. */
  lemma ConcatStep(parts: seq<Result<string, Error>>, i: nat, acc: string)
    requires i < |parts| && ConcatAll(parts[..i]) == Ok(acc)
    ensures parts[i].Ok? ==> ConcatAll(parts[..i + 1]) == Ok(acc + parts[i].value)
    ensures parts[i].Err? ==> ConcatAll(parts) == Err(parts[i].error)
  {
    if parts[i].Ok? {
      assert parts[..i + 1][..i] == parts[..i];
      assert parts[..i + 1][i] == parts[i];
    } else {
      assert forall j :: 0 <= j < i ==> parts[..i][j] == parts[j];
      var r := ConcatAll(parts);
      assert r.Err?;
      var k :| 0 <= k < |parts| && parts[k] == Err(r.error) && forall j :: 0 <= j < k ==> parts[j].Ok?;
      assert k == i;
    }
  }

  /** The j-th snippet of a field, followed by ", " unless it is the last one. */
  function SnippetPart(validations: seq<ValidationDefinition>, j: nat): Result<string, Error>
    requires j < |validations|
  {
    match GetJsValidationSnippet(validations[j])
    case Err(e) => Err(e)
    case Ok(s) => Ok(s + (if j < |validations| - 1 then ", " else ""))
  }

  /** The pieces GenerateType's inner loop appends, one per validation. */
  function SnippetParts(validations: seq<ValidationDefinition>): seq<Result<string, Error>> {
    seq(|validations|, j requires 0 <= j < |validations| => SnippetPart(validations, j))
  }

  /** The contents of a field's 'validations' array. */
  function ValidationsText(validations: seq<ValidationDefinition>): Result<string, Error> {
    ConcatAll(SnippetParts(validations))
  }

  /** The line of one field; the last field ends without a comma. */
  function FieldText(field: FieldDefinition, isLast: bool): Result<string, Error> {
    var tn :- RenderTypeName(field.typeDefinition.hostType);
    var validations :- ValidationsText(field.validations);
    Ok("    '" + field.name + "': {'type': '" + tn + "', 'validations': [" + validations + "]}"
       + (if isLast then NewLine else "," + NewLine))
  }

  /** The pieces GenerateType's field loop appends, one line per field. */
  function FieldParts(fields: seq<FieldDefinition>): seq<Result<string, Error>> {
    seq(|fields|, i requires 0 <= i < |fields| => FieldText(fields[i], i == |fields| - 1))
  }

  /** The body of the prototype's fields object. */
  function FieldsText(fields: seq<FieldDefinition>): Result<string, Error> {
    ConcatAll(FieldParts(fields))
  }

  function HeaderLine(jsName: string): string {
    "this." + jsName + " = (function() {" + NewLine
  }

  function ExtendsLine(short: string, base: string): string {
    "  __extends(" + short + ", " + base + ");" + NewLine
  }

  function ConstructorLine(short: string): string {
    "  function " + short + "() {" + NewLine
  }

  function SuperCallLine(short: string): string {
    "    " + short + ".__super__.constructor.apply(this, arguments);" + NewLine
  }

  const ConstructorClose: string := "  }" + NewLine

  function FieldsOpenLine(short: string): string {
    "  " + short + ".prototype.fields = {" + NewLine
  }

  /**
   * Everything of a class before its fields: the IIFE header, the constructor and
   * "fields = {"; with a base class, the __extends call and the super constructor call.
   */
  function ClassOpening(jsName: string, short: string, base: Option<string>): string {
    if !IsNullOrEmpty(base) then
      HeaderLine(jsName) + ExtendsLine(short, base.value) + ConstructorLine(short) + SuperCallLine(short)
      + ConstructorClose + FieldsOpenLine(short)
    else
      HeaderLine(jsName) + ConstructorLine(short) + ConstructorClose + FieldsOpenLine(short)
  }

  /** Everything of a class after its fields. */
  function ClassClosing(short: string): string {
    "  };" + NewLine + "  return " + short + ";" + NewLine + "}).call(this);" + NewLine
  }

  /** GenerateType's text for an entity definition. */
  function TypeText(ed: EntityDefinition): Result<string, Error> {
    var short := ShortName(ed.jsName);
    var fields :- FieldsText(ed.fields);
    Ok(ClassOpening(ed.jsName, short, ed.jsBaseClassName) + fields + ClassClosing(short))
  }

  /** GenerateType: the entity definition of t (GetEntityDefinition), rendered. */
  function TypeOutput(config: Configuration, t: HostType): Result<string, Error> {
    var ed :- BuildEntity(config, t);
    TypeText(ed)
  }

  // ----- the whole file -----

  /** The text Generate appends before the types: a line break, the __extends helper, the indentation of the closing quote. */
  const Preamble: string :=
    "\n(function() {\n"
    + "  __extends = function(child, parent) {\n"
    + "    for (var key in parent) { if (Object.prototype.hasOwnProperty.call(parent, key)) child[key] = parent[key]; }\n"
    + "    function ctor() { this.constructor = child; }\n"
    + "    ctor.prototype = parent.prototype;\n"
    + "    child.prototype = new ctor;\n"
    + "    child.__super__ = parent.prototype;\n"
    + "    return child;\n"
    + "  };\n"
    + "            " + NewLine

  /** The text Generate appends after the types. */
  const Epilogue: string := "\n})();\n" + "            " + NewLine

  /** The types of one assembly whose full name the filter matches, in GetTypes() order. */
  function TypesMatching(types: seq<HostType>, matcher: Regex, isMatch: (Regex, string) -> bool): seq<HostType> {
    if types == [] then []
    else
      var n := |types| - 1;
      var front := TypesMatching(types[..n], matcher, isMatch);
      if isMatch(matcher, types[n].fullName) then front + [types[n]] else front
  }

  /** The matching types of every filtered assembly, assemblies in the order they were added. */
  function MatchingTypes(filters: seq<(Assembly, Regex)>, isMatch: (Regex, string) -> bool): seq<HostType> {
    if filters == [] then []
    else
      var n := |filters| - 1;
      MatchingTypes(filters[..n], isMatch) + TypesMatching(filters[n].0.types, filters[n].1, isMatch)
  }

  /** One iteration of Generate's loop: the type's namespace declarations, then its class. */
  function BodyStep(config: Configuration, cache: seq<string>, t: HostType): (r: (Result<string, Error>, seq<string>))
    ensures |cache| <= |r.1| && r.1[..|cache|] == cache
    ensures t.namespace.None? ==> r == (Err(NullNamespace(t)), cache)
    ensures t.namespace.Some? ==> r.1 == Declare(cache, NamespacePrefixes(t.namespace.value)).cache
  {
    match NamespaceStep(cache, t)
    case Err(e) => (Err(e), cache)
    case Ok(em) =>
      match TypeOutput(config, t)
      case Err(e) => (Err(e), em.cache)
      case Ok(text) => (Ok(em.text + text), em.cache)
  }

  /** The namespace declarations and class of each type in turn, with the cache they leave. */
  function Bodies(config: Configuration, cache: seq<string>, types: seq<HostType>): (r: (Result<string, Error>, seq<string>))
    ensures |cache| <= |r.1| && r.1[..|cache|] == cache
    decreases |types|
  {
    if types == [] then (Ok(""), cache)
    else
      var step := BodyStep(config, cache, types[0]);
      if step.0.Err? then step
      else
        var rest := Bodies(config, step.1, types[1..]);
        assert rest.1[..|cache|] == step.1[..|cache|];
        match rest.0
        case Err(e) => (Err(e), rest.1)
        case Ok(more) => (Ok(step.0.value + more), rest.1)
  }
}
