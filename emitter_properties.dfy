/** What the generated text is made of: namespace declarations and classes. */
module EmitterProperties {
  import opened Wrappers
  import opened Host
  import opened Text
  import opened TypeRegistry
  import opened TypeRegistryProperties
  import opened Validation
  import opened Entities
  import opened Emitter

  // ----- namespaces -----

  /** After declaring, every prefix is cached, and the cache holds nothing but the old entries and the prefixes. */
  lemma {:induction false} DeclareCovers(cache: seq<string>, prefixes: seq<string>)
    ensures forall p :: p in prefixes ==> p in Declare(cache, prefixes).cache
    ensures forall p :: p in Declare(cache, prefixes).cache ==> p in cache || p in prefixes
    decreases |prefixes|
  {
    if prefixes != [] {
      var p := prefixes[0];
      var first := DeclareOne(cache, p);
      DeclareCovers(first.cache, prefixes[1..]);
      var rest := Declare(first.cache, prefixes[1..]);
      assert p in rest.cache by {
        var i :| 0 <= i < |first.cache| && first.cache[i] == p;
        assert rest.cache[..|first.cache|][i] == p;
      }
      assert forall q :: q in prefixes ==> q == p || q in prefixes[1..];
    }
  }

  /** Namespaces already in the cache write nothing and leave the cache as it is. */
  lemma {:induction false} DeclareKnown(cache: seq<string>, prefixes: seq<string>)
    requires forall p :: p in prefixes ==> p in cache
    ensures Declare(cache, prefixes) == Emission("", cache)
    decreases |prefixes|
  {
    if prefixes != [] {
      assert prefixes[0] in prefixes;
      assert forall p :: p in prefixes[1..] ==> p in prefixes;
      DeclareKnown(cache, prefixes[1..]);
    }
  }

  /** Declaring the same namespaces a second time writes nothing. */
  lemma DeclareIdempotent(cache: seq<string>, prefixes: seq<string>)
    ensures var e := Declare(cache, prefixes);
            Declare(e.cache, prefixes) == Emission("", e.cache)
  {
    DeclareCovers(cache, prefixes);
    DeclareKnown(Declare(cache, prefixes).cache, prefixes);
  }

  /** The cache never holds a namespace twice: whatever is added was not there before. */
  lemma {:induction false} DeclareKeepsDistinct(cache: seq<string>, prefixes: seq<string>)
    requires NoDuplicates(cache)
    ensures var e := Declare(cache, prefixes);
            && NoDuplicates(e.cache)
            && forall i :: |cache| <= i < |e.cache| ==> e.cache[i] !in cache
    decreases |prefixes|
  {
    if prefixes != [] {
      var p := prefixes[0];
      var c1 := DeclareOne(cache, p).cache;
      assert NoDuplicates(c1);
      DeclareKeepsDistinct(c1, prefixes[1..]);
      var e := Declare(cache, prefixes);
      assert e.cache == Declare(c1, prefixes[1..]).cache;
      forall i | |cache| <= i < |e.cache|
        ensures e.cache[i] !in cache
      {
        if i < |c1| {
          assert e.cache[..|c1|][i] == c1[i];
        } else {
          assert forall q :: q in cache ==> q in c1;
        }
      }
    }
  }

  /** The text written is the declaration line of each namespace the call added, in order. */
  lemma {:induction false} DeclareText(cache: seq<string>, prefixes: seq<string>)
    ensures var e := Declare(cache, prefixes);
            e.text == Lines(e.cache[|cache|..])
    decreases |prefixes|
  {
    var e := Declare(cache, prefixes);
    if prefixes == [] {
      assert e.cache[|cache|..] == [];
    } else {
      var p := prefixes[0];
      var c1 := DeclareOne(cache, p).cache;
      DeclareText(c1, prefixes[1..]);
      var r := Declare(c1, prefixes[1..]);
      if p !in cache {
        assert r.cache[..|c1|][|cache|] == p;
        var added := r.cache[|cache|..];
        assert added[0] == p && added[1..] == r.cache[|c1|..];
      }
    }
  }

  /** Declaring a + b is declaring a and then b against the cache a left. */
  lemma {:induction false} DeclareAppend(cache: seq<string>, a: seq<string>, b: seq<string>)
    ensures var x := Declare(cache, a);
            var y := Declare(x.cache, b);
            Declare(cache, a + b) == Emission(x.text + y.text, y.cache)
    decreases |a|
  {
    if a == [] {
      assert a + b == b;
    } else {
      var first := DeclareOne(cache, a[0]);
      var ab := a + b;
      assert ab[0] == a[0];
      assert ab[1..] == a[1..] + b;
      DeclareAppend(first.cache, a[1..], b);
      var x' := Declare(first.cache, a[1..]);
      var y := Declare(x'.cache, b);
      var whole := Declare(first.cache, a[1..] + b);
      assert whole.text == x'.text + y.text && whole.cache == y.cache;
      assert Declare(cache, ab) == Emission(first.text + whole.text, whole.cache);
      assert Declare(cache, a) == Emission(first.text + x'.text, x'.cache);
      ConcatAssociates(first.text, x'.text, y.text);
    }
  }

  /** After a non-empty current namespace, the k-th prefix adds the first k+1 components with dots. */
  lemma {:induction false} PrefixesAfter(current: string, components: seq<string>)
    requires current != "" && components != []
    ensures forall k :: 0 <= k < |components| ==>
              PrefixesFrom(current, components)[k] == current + "." + Join(components[..k + 1], '.')
    decreases |components|
  {
    var ps := PrefixesFrom(current, components);
    var next := current + "." + components[0];
    assert NextPrefix(current, components[0]) == next;
    assert Join(components[..1], '.') == components[0];
    if |components| > 1 {
      PrefixesAfter(next, components[1..]);
      forall k | 1 <= k < |components|
        ensures ps[k] == current + "." + Join(components[..k + 1], '.')
      {
        assert ps[k] == PrefixesFrom(next, components[1..])[k - 1];
        PrefixOfTail(components, k);
      }
    }
  }

  /**
   * When Type.Namespace does not start with a dot, GenerateNamespace declares, outermost
   * first, each run of its first k+1 dot-separated components, ending with the namespace itself.
   */
  lemma NamespacePrefixesDotted(ns: string)
    requires Split(ns, '.')[0] != ""
    ensures var components := Split(ns, '.');
            var ps := NamespacePrefixes(ns);
            && |ps| == |components|
            && ps[|ps| - 1] == ns
            && forall k :: 0 <= k < |ps| ==> ps[k] == Join(components[..k + 1], '.')
  {
    var components := Split(ns, '.');
    var ps := NamespacePrefixes(ns);
    var first := components[0];
    assert NextPrefix("", first) == first;
    assert Join(components[..1], '.') == first;
    if |components| > 1 {
      PrefixesAfter(first, components[1..]);
      forall k | 1 <= k < |ps|
        ensures ps[k] == Join(components[..k + 1], '.')
      {
        assert ps[k] == PrefixesFrom(first, components[1..])[k - 1];
        PrefixOfTail(components, k);
      }
    }
    assert components[..|components|] == components;
  }

  /**
   * A two-level namespace such as BackSupportTests.TestObjects: a fresh cache gets the
   * outer and then the full namespace, each with its declaration line.
   */
  lemma TwoLevelNamespace(outer: string, inner: string)
    requires outer != "" && '.' !in outer && '.' !in inner
    ensures var e := Declare([], NamespacePrefixes(outer + "." + inner));
            && e.cache == [outer, outer + "." + inner]
            && e.text == DeclareLine(outer) + DeclareLine(outer + "." + inner)
  {
    var components := [outer, inner];
    assert Join(components, '.') == outer + "." + inner;
    SplitJoin(components, '.');
    var ps := PrefixesFrom("", components);
    assert components[1..] == [inner] && components[1..][1..] == [];
    assert NextPrefix("", outer) == outer;
    assert NextPrefix(outer, inner) == outer + "." + inner;
    assert PrefixesFrom(outer, [inner]) == [outer + "." + inner];
    assert ps == [outer, outer + "." + inner];
    assert outer + "." + inner != outer;
    var first := DeclareOne([], outer);
    assert Declare(first.cache, ps[1..]) == Emission(DeclareLine(outer + "." + inner), [outer, outer + "." + inner]);
  }

  // ----- one entity -----

  /** The snippet of a validation, or nothing when it throws. */
  function SnippetValue(v: ValidationDefinition): string {
    match GetJsValidationSnippet(v)
    case Ok(s) => s
    case Err(_) => ""
  }

  /** The snippets of a field's validations, in order. */
  function Snippets(validations: seq<ValidationDefinition>): seq<string> {
    seq(|validations|, j requires 0 <= j < |validations| => SnippetValue(validations[j]))
  }

  /**
   * Pieces that each carry a separator, the last one a terminator instead, concatenate to
   * the values joined by the separator and then terminated.
   */
  lemma {:induction false} ConcatSeparated(parts: seq<Result<string, Error>>, values: seq<string>, sep: string, last: string, n: nat)
    requires |parts| == |values| && n <= |parts|
    requires forall j :: 0 <= j < |parts| ==> parts[j] == Ok(values[j] + (if j < |parts| - 1 then sep else last))
    ensures ConcatAll(parts[..n]) == Ok(JoinWith(values[..n], sep) + (if n == 0 then "" else if n < |parts| then sep else last))
  {
    if n == 0 {
      assert parts[..0] == [] && values[..0] == [];
      assert ConcatAll(parts[..0]) == Ok("");
      assert JoinWith(values[..0], sep) == "";
      assert JoinWith(values[..0], sep) + "" == "";
    } else {
      ConcatSeparated(parts, values, sep, last, n - 1);
      assert parts[..n][..n - 1] == parts[..n - 1];
      assert parts[..n][n - 1] == parts[n - 1];
      var tail := if n < |parts| then sep else last;
      var front := ConcatAll(parts[..n - 1]).value;
      assert parts[n - 1] == Ok(values[n - 1] + tail);
      assert ConcatAll(parts[..n]) == Ok(front + (values[n - 1] + tail));
      if n == 1 {
        assert values[..1] == [values[0]];
        assert front == "";
        assert front + (values[0] + tail) == values[0] + tail;
      } else {
        var joined := JoinWith(values[..n - 1], sep);
        assert front == joined + sep;
        assert values[..n] == values[..n - 1] + [values[n - 1]];
        JoinWithSnoc(values[..n - 1], values[n - 1], sep);
        calc {
          front + (values[n - 1] + tail);
          (joined + sep) + (values[n - 1] + tail);
          (joined + sep + values[n - 1]) + tail;
          JoinWith(values[..n], sep) + tail;
        }
      }
    }
  }

  /** A field's validations array holds its snippets separated by ", ", as string.Join would write them. */
  lemma ValidationsJoined(validations: seq<ValidationDefinition>)
    requires forall j :: 0 <= j < |validations| ==> GetJsValidationSnippet(validations[j]).Ok?
    ensures ValidationsText(validations) == Ok(JoinWith(Snippets(validations), ", "))
  {
    var parts := SnippetParts(validations);
    var values := Snippets(validations);
    forall j | 0 <= j < |parts|
      ensures parts[j] == Ok(values[j] + (if j < |parts| - 1 then ", " else ""))
    {
      assert parts[j] == SnippetPart(validations, j);
    }
    ConcatSeparated(parts, values, ", ", "", |parts|);
    assert parts[..|parts|] == parts;
    assert values[..|parts|] == values;
    var joined := JoinWith(values, ", ");
    assert joined + "" == joined;
    assert ValidationsText(validations) == ConcatAll(parts);
  }

  /** A field's line fails exactly when its type name or one of its snippets does. */
  lemma FieldTextFails(field: FieldDefinition, isLast: bool)
    ensures FieldText(field, isLast).Err? <==>
              || RenderTypeName(field.typeDefinition.hostType).Err?
              || exists j :: 0 <= j < |field.validations| && GetJsValidationSnippet(field.validations[j]).Err?
  {
    var parts := SnippetParts(field.validations);
    assert forall j :: 0 <= j < |parts| ==> (parts[j].Err? <==> GetJsValidationSnippet(field.validations[j]).Err?);
  }

  /** A field renders: its type name and every snippet do. */
  predicate FieldRenders(field: FieldDefinition) {
    && RenderTypeName(field.typeDefinition.hostType).Ok?
    && forall j :: 0 <= j < |field.validations| ==> GetJsValidationSnippet(field.validations[j]).Ok?
  }

  /** The manifest entry of a rendering field: 'name': {'type': 'tn', 'validations': [s1, s2, ...]}. */
  function FieldEntry(field: FieldDefinition): string
    requires FieldRenders(field)
  {
    "    '" + field.name + "': {'type': '" + RenderTypeName(field.typeDefinition.hostType).value
    + "', 'validations': [" + JoinWith(Snippets(field.validations), ", ") + "]}"
  }

  /** The manifest entries of a class's fields, in property order. */
  function FieldEntries(fields: seq<FieldDefinition>): seq<string>
    requires forall i :: 0 <= i < |fields| ==> FieldRenders(fields[i])
  {
    seq(|fields|, i requires 0 <= i < |fields| => FieldEntry(fields[i]))
  }

  /** One field's line: its entry, then a comma unless it is the last, then a line break. */
  lemma FieldLine(field: FieldDefinition, isLast: bool)
    requires FieldRenders(field)
    ensures FieldText(field, isLast) == Ok(FieldEntry(field) + (if isLast then NewLine else "," + NewLine))
  {
    ValidationsJoined(field.validations);
  }

  /**
   * The fields object of a class: the entries of its fields separated by a comma and a
   * line break, the last one followed by a bare line break.
   */
  lemma FieldsJoined(fields: seq<FieldDefinition>)
    requires forall i :: 0 <= i < |fields| ==> FieldRenders(fields[i])
    ensures FieldsText(fields) == Ok(JoinWith(FieldEntries(fields), "," + NewLine) + (if fields == [] then "" else NewLine))
  {
    var parts := FieldParts(fields);
    var values := FieldEntries(fields);
    forall i | 0 <= i < |parts|
      ensures parts[i] == Ok(values[i] + (if i < |parts| - 1 then "," + NewLine else NewLine))
    {
      FieldLine(fields[i], i == |fields| - 1);
    }
    ConcatSeparated(parts, values, "," + NewLine, NewLine, |parts|);
    assert parts[..|parts|] == parts;
    assert values[..|parts|] == values;
  }

  /** GenerateType throws exactly when some field's type name or snippet throws. */
  lemma TypeTextFails(ed: EntityDefinition)
    ensures TypeText(ed).Err? <==>
              exists i :: 0 <= i < |ed.fields| &&
                (|| RenderTypeName(ed.fields[i].typeDefinition.hostType).Err?
                 || exists j :: 0 <= j < |ed.fields[i].validations| && GetJsValidationSnippet(ed.fields[i].validations[j]).Err?)
  {
    var parts := FieldParts(ed.fields);
    forall i | 0 <= i < |ed.fields|
      ensures parts[i].Err? <==>
                || RenderTypeName(ed.fields[i].typeDefinition.hostType).Err?
                || exists j :: 0 <= j < |ed.fields[i].validations| && GetJsValidationSnippet(ed.fields[i].validations[j]).Err?
    {
      FieldTextFails(ed.fields[i], i == |ed.fields| - 1);
    }
  }

  /** The descriptors of the default registry all have a type name that renders. */
  lemma DefaultDescriptorsRender()
    ensures forall i :: 0 <= i < |DefaultEntries| ==> RenderTypeName(DefaultEntries[i].1.hostType).Ok?
  {
    DefaultTable();
  }

  /** The type names written for the plain descriptors: one leading "System." removed. */
  lemma PlainTypeNames()
    ensures RenderTypeName(StringEntry.1.hostType) == Ok("String")
    ensures RenderTypeName(Int32Entry.1.hostType) == Ok("Int32")
    ensures RenderTypeName(DateTimeEntry.1.hostType) == Ok("DateTime")
  {
  }

  /** A Nullable<int> property is written as Int32?. */
  lemma NullableInt32TypeName()
    ensures RenderTypeName(NullableInt32Entry.1.hostType) == Ok("Int32?")
  {
    assert "System.Int32" + "?" == "System.Int32?";
  }

  /** A Nullable<DateTime> property is written as DateTime?. */
  lemma NullableDateTimeTypeName()
    ensures RenderTypeName(NullableDateTimeEntry.1.hostType) == Ok("DateTime?")
  {
    assert "System.DateTime" + "?" == "System.DateTime?";
  }

  /** The Nullable<char> registration carries typeof(char), so such a property is written as Char, not Char?. */
  lemma NullableCharTypeName()
    ensures RenderTypeName(NullableCharEntry.1.hostType) == Ok("Char")
  {
  }

  /** Each default rule is registered under the attribute type it renders. */
  lemma DefaultRuleFits(attr: Attribute)
    requires KindOf(attr) in DefaultRules
    ensures Fits(DefaultRules[KindOf(attr)], attr)
  {
  }

  /** With the default providers a property whose type is assignable to object yields a field that renders. */
  lemma DefaultFieldRenders(config: Configuration, property: PropertyInfo)
    requires config.types == DefaultEntries && config.rules == DefaultRules
    requires config.isAssignableFrom(ObjectType, property.propertyType)
    ensures BuildField(config, property).Ok?
    ensures var field := BuildField(config, property).value;
            && RenderTypeName(field.typeDefinition.hostType).Ok?
            && forall j :: 0 <= j < |field.validations| ==> GetJsValidationSnippet(field.validations[j]).Ok?
  {
    DefaultNeverFails(property.propertyType, config.isAssignableFrom);
    var td := GetTypeDefinition(DefaultEntries, property.propertyType, config.isAssignableFrom);
    var k :| 0 <= k < |DefaultEntries| && td.value == DefaultEntries[k].1;
    DefaultDescriptorsRender();
    assert RenderTypeName(DefaultEntries[k].1.hostType).Ok?;
    var field := BuildField(config, property).value;
    assert field.typeDefinition == DefaultEntries[k].1;
    forall j | 0 <= j < |field.validations|
      ensures GetJsValidationSnippet(field.validations[j]).Ok?
    {
      var v := field.validations[j];
      assert KindOf(v.attribute) in DefaultRules && v.rule == DefaultRules[KindOf(v.attribute)];
      DefaultRuleFits(v.attribute);
    }
  }

  /**
   * With the default providers, and every property type assignable to object as in .NET,
   * GenerateType never throws.
   */
  lemma DefaultTypeOutputSucceeds(config: Configuration, t: HostType)
    requires config.types == DefaultEntries && config.rules == DefaultRules
    requires forall i :: 0 <= i < |t.properties| ==> config.isAssignableFrom(ObjectType, t.properties[i].propertyType)
    ensures TypeOutput(config, t).Ok?
  {
    forall i | 0 <= i < |t.properties|
      ensures BuildField(config, t.properties[i]).Ok?
    {
      DefaultFieldRenders(config, t.properties[i]);
    }
    var fields := BuildFields(config, t.properties).value;
    var ed := BuildEntity(config, t).value;
    assert ed.fields == fields;
    forall i | 0 <= i < |ed.fields|
      ensures RenderTypeName(ed.fields[i].typeDefinition.hostType).Ok?
      ensures forall j :: 0 <= j < |ed.fields[i].validations| ==> GetJsValidationSnippet(ed.fields[i].validations[j]).Ok?
    {
      DefaultFieldRenders(config, t.properties[i]);
      assert BuildField(config, t.properties[i]) == Ok(ed.fields[i]);
    }
    TypeTextFails(ed);
  }

  /**
   * Generate's loop over one type in a two-level namespace, from a fresh cache: both
   * namespace lines, then the class text, and the cache holds both prefixes.
   */
  lemma SingleTypeBodies(config: Configuration, t: HostType, outer: string, inner: string)
    requires outer != "" && '.' !in outer && '.' !in inner
    requires t.namespace == Some(outer + "." + inner)
    requires TypeOutput(config, t).Ok?
    ensures Bodies(config, [], [t])
            == (Ok(DeclareLine(outer) + DeclareLine(outer + "." + inner) + TypeOutput(config, t).value),
                [outer, outer + "." + inner])
    ensures StartsWith(Bodies(config, [], [t]).0.value, DeclareLine(outer) + DeclareLine(outer + "." + inner))
  {
    TwoLevelNamespace(outer, inner);
    var lines := DeclareLine(outer) + DeclareLine(outer + "." + inner);
    var text := TypeOutput(config, t).value;
    var step := BodyStep(config, [], t);
    assert step == (Ok(lines + text), [outer, outer + "." + inner]);
    assert [t][1..] == [];
    assert step.0.value + "" == lines + text;
    StartsWithConcat(lines, text);
  }

  /** The opening of a class: its header, then with a base class the __extends call and the super call. */
  lemma OpeningShape(js: string, short: string, base: Option<string>)
    ensures !IsNullOrEmpty(base) ==>
              StartsWith(ClassOpening(js, short, base),
                         HeaderLine(js) + ExtendsLine(short, base.value) + ConstructorLine(short) + SuperCallLine(short))
    ensures IsNullOrEmpty(base) ==> StartsWith(ClassOpening(js, short, base), HeaderLine(js) + ConstructorLine(short) + ConstructorClose)
  {
    var h := HeaderLine(js);
    var c := ConstructorLine(short);
    var f := FieldsOpenLine(short);
    if !IsNullOrEmpty(base) {
      var he := h + ExtendsLine(short, base.value);
      var hec := he + c;
      var hecs := hec + SuperCallLine(short);
      var hecsc := hecs + ConstructorClose;
      StartsWithConcat(hecsc, f);
      StartsWithConcat(hecs, ConstructorClose);
      StartsWithTrans(hecsc + f, hecsc, hecs);
    } else {
      StartsWithConcat(h + c + ConstructorClose, f);
    }
  }

  /**
   * The shape of a generated class: the header names the transformed type; with a base
   * class configured the __extends call follows at once and the constructor calls the
   * super constructor, without one the constructor follows and closes at once; the class
   * ends by returning its short name.
   */
  lemma TypeOutputShape(config: Configuration, t: HostType)
    requires TypeOutput(config, t).Ok?
    ensures var js := config.nameTransformer(t.fullName);
            var short := ShortName(js);
            var text := TypeOutput(config, t).value;
            && (!IsNullOrEmpty(config.baseClass) ==>
                  StartsWith(text, HeaderLine(js) + ExtendsLine(short, config.baseClass.value) + ConstructorLine(short) + SuperCallLine(short)))
            && (IsNullOrEmpty(config.baseClass) ==> StartsWith(text, HeaderLine(js) + ConstructorLine(short) + ConstructorClose))
            && EndsWith(text, ClassClosing(short))
  {
    var ed := BuildEntity(config, t).value;
    var js := ed.jsName;
    var short := ShortName(js);
    var fields := FieldsText(ed.fields).value;
    var text := TypeOutput(config, t).value;
    var opening := ClassOpening(js, short, ed.jsBaseClassName);
    var closing := ClassClosing(short);
    assert text == opening + fields + closing;
    EndsWithConcat(opening + fields, closing);
    ConcatAssociates(opening, fields, closing);
    StartsWithConcat(opening, fields + closing);
    OpeningShape(js, short, ed.jsBaseClassName);
    if !IsNullOrEmpty(config.baseClass) {
      StartsWithTrans(text, opening, HeaderLine(js) + ExtendsLine(short, config.baseClass.value) + ConstructorLine(short) + SuperCallLine(short));
    } else {
      StartsWithTrans(text, opening, HeaderLine(js) + ConstructorLine(short) + ConstructorClose);
    }
  }

  // ----- the whole file -----

  /** Generate's loop keeps the namespace cache free of duplicates. */
  lemma {:induction false} BodiesKeepDistinct(config: Configuration, cache: seq<string>, types: seq<HostType>)
    requires NoDuplicates(cache)
    ensures NoDuplicates(Bodies(config, cache, types).1)
    decreases |types|
  {
    if types != [] {
      var step := BodyStep(config, cache, types[0]);
      if types[0].namespace.Some? {
        DeclareKeepsDistinct(cache, NamespacePrefixes(types[0].namespace.value));
      }
      if step.0.Ok? {
        BodiesKeepDistinct(config, step.1, types[1..]);
      }
    }
  }

  /** A matching type in the global namespace makes Generate throw (before writing anything). */
  lemma {:induction false} GlobalNamespaceThrows(config: Configuration, cache: seq<string>, types: seq<HostType>, i: nat)
    requires i < |types| && types[i].namespace.None?
    ensures Bodies(config, cache, types).0.Err?
    decreases |types|
  {
    var step := BodyStep(config, cache, types[0]);
    if i > 0 && step.0.Ok? {
      GlobalNamespaceThrows(config, step.1, types[1..], i - 1);
    }
  }

  /**
   * With the default providers and .NET's rule that every type is assignable to object,
   * Generate's loop throws only for a type in the global namespace.
   */
  lemma {:induction false} DefaultBodiesSucceed(config: Configuration, cache: seq<string>, types: seq<HostType>)
    requires config.types == DefaultEntries && config.rules == DefaultRules
    requires forall x :: config.isAssignableFrom(ObjectType, x)
    requires forall i :: 0 <= i < |types| ==> types[i].namespace.Some?
    ensures Bodies(config, cache, types).0.Ok?
    decreases |types|
  {
    if types != [] {
      DefaultTypeOutputSucceeds(config, types[0]);
      var step := BodyStep(config, cache, types[0]);
      assert step.0.Ok?;
      DefaultBodiesSucceed(config, step.1, types[1..]);
    }
  }

  /** Every namespace prefix of every type the loop got through is in the cache it leaves. */
  lemma {:induction false} BodiesCovers(config: Configuration, cache: seq<string>, types: seq<HostType>)
    requires Bodies(config, cache, types).0.Ok?
    ensures forall i :: 0 <= i < |types| ==> types[i].namespace.Some?
    ensures forall i, p :: 0 <= i < |types| && types[i].namespace.Some? && p in NamespacePrefixes(types[i].namespace.value)
                           ==> p in Bodies(config, cache, types).1
    decreases |types|
  {
    if types != [] {
      var step := BodyStep(config, cache, types[0]);
      assert types[0].namespace.Some?;
      DeclareCovers(cache, NamespacePrefixes(types[0].namespace.value));
      BodiesCovers(config, step.1, types[1..]);
      var whole := Bodies(config, cache, types);
      assert whole.1 == Bodies(config, step.1, types[1..]).1;
      forall i, p | 0 <= i < |types| && types[i].namespace.Some? && p in NamespacePrefixes(types[i].namespace.value)
        ensures p in whole.1
      {
        if i == 0 {
          var k :| 0 <= k < |step.1| && step.1[k] == p;
          assert whole.1[..|step.1|][k] == p;
        } else {
          assert types[i] == types[1..][i - 1];
        }
      }
    }
  }

  /** Generate's loop over a single type is that type's BodyStep. */
  lemma BodiesOfOne(config: Configuration, cache: seq<string>, t: HostType)
    ensures Bodies(config, cache, [t]) == BodyStep(config, cache, t)
  {
    var step := BodyStep(config, cache, t);
    assert [t][0] == t && [t][1..] == [];
    if step.0.Ok? {
      var rest := Bodies(config, step.1, []);
      assert rest == (Ok(""), step.1);
      assert step.0.value + "" == step.0.value;
    }
  }

  /** Generate's loop over one more type: the loop so far, then one BodyStep from the cache it left. */
  lemma {:induction false} BodiesSnoc(config: Configuration, cache: seq<string>, types: seq<HostType>, t: HostType)
    ensures var front := Bodies(config, cache, types);
            var whole := Bodies(config, cache, types + [t]);
            var step := BodyStep(config, front.1, t);
            && (front.0.Err? ==> whole == front)
            && (front.0.Ok? && step.0.Err? ==> whole == step)
            && (front.0.Ok? && step.0.Ok? ==> whole == (Ok(front.0.value + step.0.value), step.1))
    decreases |types|
  {
    if types == [] {
      assert types + [t] == [t];
      BodiesOfOne(config, cache, t);
      var step := BodyStep(config, cache, t);
      if step.0.Ok? {
        assert "" + step.0.value == step.0.value;
      }
    } else {
      assert (types + [t])[0] == types[0] && (types + [t])[1..] == types[1..] + [t];
      var first := BodyStep(config, cache, types[0]);
      if first.0.Ok? {
        BodiesSnoc(config, first.1, types[1..], t);
        var rest := Bodies(config, first.1, types[1..]);
        var step := BodyStep(config, rest.1, t);
        if rest.0.Ok? && step.0.Ok? {
          ConcatAssociates(first.0.value, rest.0.value, step.0.value);
        }
      }
    }
  }

  /** A type whose namespace is already declared adds its class and no declaration line. */
  lemma KnownNamespaceStep(config: Configuration, cache: seq<string>, t: HostType)
    requires t.namespace.Some? && forall p :: p in NamespacePrefixes(t.namespace.value) ==> p in cache
    ensures BodyStep(config, cache, t) == (TypeOutput(config, t), cache)
  {
    DeclareKnown(cache, NamespacePrefixes(t.namespace.value));
    var out := TypeOutput(config, t);
    if out.Ok? {
      assert "" + out.value == out.value;
    }
  }

  /**
   * No namespace is declared twice in one file: after the loop has handled a type of the
   * same namespace, the next type appends only its class.
   */
  lemma RepeatedNamespaceWritesOnlyTheClass(config: Configuration, cache: seq<string>, types: seq<HostType>, i: nat, t: HostType)
    requires Bodies(config, cache, types).0.Ok?
    requires i < |types| && types[i].namespace == t.namespace
    ensures var front := Bodies(config, cache, types);
            var out := TypeOutput(config, t);
            var whole := Bodies(config, cache, types + [t]);
            && whole.1 == front.1
            && (out.Ok? ==> whole.0 == Ok(front.0.value + out.value))
            && (out.Err? ==> whole.0 == out)
  {
    var front := Bodies(config, cache, types);
    BodiesCovers(config, cache, types);
    assert t.namespace.Some?;
    KnownNamespaceStep(config, front.1, t);
    BodiesSnoc(config, cache, types, t);
  }

  // ----- the types Generate picks -----

  /** The types kept are exactly the assembly's types whose full name the filter matches. */
  lemma {:induction false} TypesMatchingMembers(types: seq<HostType>, matcher: Regex, isMatch: (Regex, string) -> bool)
    ensures |TypesMatching(types, matcher, isMatch)| <= |types|
    ensures forall t :: t in TypesMatching(types, matcher, isMatch) <==> t in types && isMatch(matcher, t.fullName)
    decreases |types|
  {
    if types != [] {
      var n := |types| - 1;
      TypesMatchingMembers(types[..n], matcher, isMatch);
      assert forall t :: t in types <==> t in types[..n] || t == types[n];
    }
  }

  /** Filtering a concatenation filters each part in turn: GetTypes() order is kept. */
  lemma {:induction false} TypesMatchingAppend(a: seq<HostType>, b: seq<HostType>, matcher: Regex, isMatch: (Regex, string) -> bool)
    ensures TypesMatching(a + b, matcher, isMatch) == TypesMatching(a, matcher, isMatch) + TypesMatching(b, matcher, isMatch)
    decreases |b|
  {
    if b == [] {
      assert a + b == a;
    } else {
      var n := |b| - 1;
      assert (a + b)[..|a + b| - 1] == a + b[..n];
      assert (a + b)[|a + b| - 1] == b[n];
      TypesMatchingAppend(a, b[..n], matcher, isMatch);
    }
  }

  /** A single type is kept exactly when its full name matches. */
  lemma TypesMatchingOne(t: HostType, matcher: Regex, isMatch: (Regex, string) -> bool)
    ensures TypesMatching([t], matcher, isMatch) == if isMatch(matcher, t.fullName) then [t] else []
  {
    assert [t][..0] == [];
  }

  predicate Distinct<T(==)>(s: seq<T>) {
    forall i, j :: 0 <= i < j < |s| ==> s[i] != s[j]
  }

  /** An assembly that lists each type once yields each matching type once. */
  lemma {:induction false} TypesMatchingDistinct(types: seq<HostType>, matcher: Regex, isMatch: (Regex, string) -> bool)
    requires Distinct(types)
    ensures Distinct(TypesMatching(types, matcher, isMatch))
    decreases |types|
  {
    if types != [] {
      var n := |types| - 1;
      assert Distinct(types[..n]);
      TypesMatchingDistinct(types[..n], matcher, isMatch);
      var front := TypesMatching(types[..n], matcher, isMatch);
      TypesMatchingMembers(types[..n], matcher, isMatch);
      assert types[n] !in types[..n];
      assert types[n] !in front;
    }
  }

  /** A type is picked exactly when some filtered assembly holds it and that filter's regex matches its full name. */
  lemma {:induction false} MatchingTypesMembers(filters: seq<(Assembly, Regex)>, isMatch: (Regex, string) -> bool)
    ensures forall t :: t in MatchingTypes(filters, isMatch)
                        <==> exists i :: 0 <= i < |filters| && t in filters[i].0.types && isMatch(filters[i].1, t.fullName)
    decreases |filters|
  {
    if filters != [] {
      var n := |filters| - 1;
      MatchingTypesMembers(filters[..n], isMatch);
      TypesMatchingMembers(filters[n].0.types, filters[n].1, isMatch);
      assert forall i :: 0 <= i < n ==> filters[..n][i] == filters[i];
    }
  }

  /** The matching types of a concatenation of filters are those of each part, in filter order. */
  lemma {:induction false} MatchingTypesAppend(f: seq<(Assembly, Regex)>, g: seq<(Assembly, Regex)>, isMatch: (Regex, string) -> bool)
    ensures MatchingTypes(f + g, isMatch) == MatchingTypes(f, isMatch) + MatchingTypes(g, isMatch)
    decreases |g|
  {
    if g == [] {
      assert f + g == f;
    } else {
      var n := |g| - 1;
      var fg := f + g;
      var last := TypesMatching(g[n].0.types, g[n].1, isMatch);
      assert fg[..|fg| - 1] == f + g[..n] && fg[|fg| - 1] == g[n];
      assert MatchingTypes(fg, isMatch) == MatchingTypes(f + g[..n], isMatch) + last;
      assert MatchingTypes(g, isMatch) == MatchingTypes(g[..n], isMatch) + last;
      MatchingTypesAppend(f, g[..n], isMatch);
    }
  }

  /** One filter contributes exactly the assembly's matching types, in GetTypes() order. */
  lemma MatchingTypesOne(f: (Assembly, Regex), isMatch: (Regex, string) -> bool)
    ensures MatchingTypes([f], isMatch) == TypesMatching(f.0.types, f.1, isMatch)
  {
    assert [f][..0] == [];
  }
}
