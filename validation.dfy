/**
 * DefaultValidationDefinitionProvider and the four validation rules: which attribute
 * types produce a rule, and the JavaScript validator call each rule renders.
 */
module Validation {
  import opened Wrappers
  import opened Host
  import opened Text

  /** The runtime type of an attribute, attr.GetType(). */
  datatype AttributeKind =
    | RequiredAttribute
    | RegularExpressionAttribute
    | StringLengthAttribute
    | RangeAttribute
    | DisplayAttribute
    | OtherAttribute(name: string)

  function KindOf(attr: Attribute): AttributeKind {
    match attr
    case Required => RequiredAttribute
    case StringLength(_, _) => StringLengthAttribute
    case Range(_, _) => RangeAttribute
    case RegularExpression(_) => RegularExpressionAttribute
    case Display(_) => DisplayAttribute
    case Other(name) => OtherAttribute(name)
  }

  /** The validation classes a registration can name. */
  datatype RuleKind = RequiredValidation | RegexValidation | StringLengthValidation | RangeValidation

  /** The registry: attribute type to validation class, exact keys. */
  type ValidationRules = map<AttributeKind, RuleKind>

  /** A rule instance bound to the attribute and the property it was created for. */
  datatype ValidationDefinition = ValidationDefinition(rule: RuleKind, attribute: Attribute, property: PropertyInfo)

  /**
   * GetValidationDefinition: null unless the attribute's exact runtime type is registered;
   * otherwise a new instance of the registered rule bound to this attribute and property.
   */
  function GetValidationDefinition(rules: ValidationRules, attr: Attribute, property: PropertyInfo)
    : (r: Option<ValidationDefinition>)
    ensures r.None? <==> KindOf(attr) !in rules
    ensures r.Some? ==> r.value.attribute == attr && r.value.property == property
    ensures r.Some? ==> r.value.rule == rules[KindOf(attr)]
  {
    var kind := KindOf(attr);
    if kind in rules then Some(ValidationDefinition(rules[kind], attr, property)) else None
  }

  /** The registrations SetupDefaultValidations makes. */
  const DefaultRules: ValidationRules := map[
    RequiredAttribute := RequiredValidation,
    RegularExpressionAttribute := RegexValidation,
    StringLengthAttribute := StringLengthValidation,
    RangeAttribute := RangeValidation]

  class DefaultValidationDefinitionProvider {
    var rules: ValidationRules

    /** The constructor runs SetupDefaultValidations. */
    constructor ()
      ensures rules == DefaultRules
    {
      rules := map[];
      new;
      SetupDefaultValidations();
    }

    method SetValidationDefinition(attr: AttributeKind, rule: RuleKind)
      modifies this
      ensures rules == old(rules)[attr := rule]
    {
      rules := rules[attr := rule];
    }

    method SetupDefaultValidations()
      modifies this
      ensures rules == old(rules)[RequiredAttribute := RequiredValidation][RegularExpressionAttribute := RegexValidation]
                                 [StringLengthAttribute := StringLengthValidation][RangeAttribute := RangeValidation]
    {
      SetValidationDefinition(RequiredAttribute, RequiredValidation);
      SetValidationDefinition(RegularExpressionAttribute, RegexValidation);
      SetValidationDefinition(StringLengthAttribute, StringLengthValidation);
      SetValidationDefinition(RangeAttribute, RangeValidation);
    }
  }

  /** The description of the first Display attribute, if there is one (itself possibly null). */
  function FirstDisplayDescription(attrs: seq<Attribute>): (r: Option<Option<string>>)
    ensures r.None? <==> forall i :: 0 <= i < |attrs| ==> !attrs[i].Display?
    ensures r.Some? ==> exists i :: 0 <= i < |attrs| && attrs[i].Display? && r.value == attrs[i].description
                                    && forall j :: 0 <= j < i ==> !attrs[j].Display?
  {
    if attrs == [] then None
    else if attrs[0].Display? then
      Some(attrs[0].description)
    else
      var r := FirstDisplayDescription(attrs[1..]);
      assert forall i :: 1 <= i < |attrs| ==> attrs[i] == attrs[1..][i - 1];
      r
  }

  /**
   * BaseValidationDefinition.JsFieldName: the Description of the property's first Display
   * attribute when it has one (null when that Description is null), else the property name.
   */
  function JsFieldName(property: PropertyInfo): (r: Option<string>)
    ensures (forall i :: 0 <= i < |property.attributes| ==> !property.attributes[i].Display?) ==> r == Some(property.name)
    ensures forall i :: 0 <= i < |property.attributes| && property.attributes[i].Display?
                        && (forall j :: 0 <= j < i ==> !property.attributes[j].Display?)
                        ==> r == property.attributes[i].description
  {
    match FirstDisplayDescription(property.attributes)
    case Some(description) => description
    case None => Some(property.name)
  }

  /** String concatenation in C# appends a null string as nothing. */
  function AsText(s: Option<string>): string {
    match s
    case Some(t) => t
    case None => ""
  }

  /** One entry of a validator's options object, as the generated text writes it. */
  datatype JsOption = JsOption(key: string, value: string)

  /** The options after fieldName, each written as ", 'key': value". */
  function RenderOptions(options: seq<JsOption>): string {
    if options == [] then "" else ", '" + options[0].key + "': " + options[0].value + RenderOptions(options[1..])
  }

  /** The text of a call of a validator factory of the runtime with a fieldName and further options. */
  function FactoryCall(factory: string, fieldName: string, options: seq<JsOption>): string {
    "BackSupport.Validate." + factory + "({ fieldName: '" + fieldName + "'" + RenderOptions(options) + "})"
  }

  /** The runtime factory each rule calls. As written, RegexValidation calls Range, not Regex. */
  function Factory(rule: RuleKind): string {
    match rule
    case RequiredValidation => "Required"
    case StringLengthValidation => "StringLength"
    case RangeValidation => "Range"
    case RegexValidation => "Range"
  }

  /**
   * Whether `Attribute as T` succeeds for the rule's attribute type T. RequiredValidation
   * never casts, so it accepts any attribute.
   */
  predicate Fits(rule: RuleKind, attr: Attribute) {
    match rule
    case RequiredValidation => true
    case StringLengthValidation => attr.StringLength?
    case RangeValidation => attr.Range?
    case RegexValidation => attr.RegularExpression?
  }

  /** The first value written for key, if any. */
  function OptionValue(options: seq<JsOption>, key: string): Option<string> {
    if options == [] then None
    else if options[0].key == key then Some(options[0].value)
    else OptionValue(options[1..], key)
  }

  function Keys(options: seq<JsOption>): (keys: seq<string>)
    ensures |keys| == |options|
  {
    if options == [] then [] else [options[0].key] + Keys(options[1..])
  }

  /**
   * The options a rule writes after fieldName:
   * StringLength writes maxLength when MaximumLength > 0, then minLength when MinimumLength > 0;
   * Range writes min whenever Minimum is non-null, then max whenever Maximum is non-null (0 included);
   * Regex writes regex, quoted with its single quotes escaped, when Pattern is non-null;
   * Required writes nothing.
   */
  function SnippetOptions(rule: RuleKind, attr: Attribute): (options: seq<JsOption>)
    requires Fits(rule, attr)
    ensures rule == RequiredValidation ==> options == []
    ensures rule == StringLengthValidation ==>
              && OptionValue(options, "maxLength") == (if attr.maximumLength > 0 then Some(NatToString(attr.maximumLength)) else None)
              && OptionValue(options, "minLength") == (if attr.minimumLength > 0 then Some(NatToString(attr.minimumLength)) else None)
              && Keys(options) == (if attr.maximumLength > 0 then ["maxLength"] else []) + (if attr.minimumLength > 0 then ["minLength"] else [])
    ensures rule == RangeValidation ==>
              && OptionValue(options, "min") == attr.minimum
              && OptionValue(options, "max") == attr.maximum
              && Keys(options) == (if attr.minimum.Some? then ["min"] else []) + (if attr.maximum.Some? then ["max"] else [])
    ensures rule == RegexValidation ==>
              && (attr.pattern.Some? <==> OptionValue(options, "regex").Some?)
              && (attr.pattern.Some? ==> OptionValue(options, "regex") == Some("'" + EscapeQuotes(attr.pattern.value) + "'"))
              && Keys(options) == (if attr.pattern.Some? then ["regex"] else [])
  {
    match rule
    case RequiredValidation => []
    case StringLengthValidation =>
      (if attr.maximumLength > 0 then [JsOption("maxLength", NatToString(attr.maximumLength))] else [])
      + (if attr.minimumLength > 0 then [JsOption("minLength", NatToString(attr.minimumLength))] else [])
    case RangeValidation =>
      (if attr.minimum.Some? then [JsOption("min", attr.minimum.value)] else [])
      + (if attr.maximum.Some? then [JsOption("max", attr.maximum.value)] else [])
    case RegexValidation =>
      if attr.pattern.Some? then [JsOption("regex", "'" + EscapeQuotes(attr.pattern.value) + "'")] else []
  }

  /**
   * GetJsValidationSnippet: the validator call for the rule, named by JsFieldName; an
   * ArgumentException when StringLength, Range or Regex is bound to an attribute of
   * another type.
   */
  function GetJsValidationSnippet(v: ValidationDefinition): (r: Result<string, Error>)
    ensures r.Err? <==> !Fits(v.rule, v.attribute)
    ensures r.Err? ==> r.error == AttributeMismatch(v.attribute)
    ensures r.Ok? ==> r.value == FactoryCall(Factory(v.rule), AsText(JsFieldName(v.property)), SnippetOptions(v.rule, v.attribute))
  {
    if Fits(v.rule, v.attribute) then
      Ok(FactoryCall(Factory(v.rule), AsText(JsFieldName(v.property)), SnippetOptions(v.rule, v.attribute)))
    else
      Err(AttributeMismatch(v.attribute))
  }

  /**
   * The spec of GetValidations: for each attribute in order, the rule the registry
   * returns for it, nulls dropped.
   */
  function CollectValidations(rules: ValidationRules, attrs: seq<Attribute>, property: PropertyInfo)
    : (r: seq<ValidationDefinition>)
    ensures |r| <= |attrs|
    ensures forall k :: 0 <= k < |r| ==> r[k].property == property && r[k].attribute in attrs
                                         && KindOf(r[k].attribute) in rules && r[k].rule == rules[KindOf(r[k].attribute)]
  {
    if attrs == [] then []
    else
      var front := CollectValidations(rules, attrs[..|attrs| - 1], property);
      var last := attrs[|attrs| - 1];
      assert forall a :: a in attrs[..|attrs| - 1] ==> a in attrs;
      match GetValidationDefinition(rules, last, property)
      case Some(v) => front + [v]
      case None => front
  }
}

module ValidationProperties {
  import opened Wrappers
  import opened Host
  import opened Text
  import opened Validation

  /** With the default registry every rule gets an attribute of its own type, so no snippet throws. */
  lemma DefaultRulesFit(attr: Attribute, property: PropertyInfo)
    requires KindOf(attr) in DefaultRules
    ensures GetValidationDefinition(DefaultRules, attr, property).Some?
    ensures GetJsValidationSnippet(GetValidationDefinition(DefaultRules, attr, property).value).Ok?
  {
  }

  /** Display and attributes of unregistered types produce no rule. */
  lemma DefaultIgnoresOthers(property: PropertyInfo, description: Option<string>, name: string)
    ensures GetValidationDefinition(DefaultRules, Display(description), property).None?
    ensures GetValidationDefinition(DefaultRules, Other(name), property).None?
  {
  }

  /** A mis-registered rule fails when rendered: Range bound to a regular expression attribute. */
  lemma MisregisteredRuleThrows(property: PropertyInfo, pattern: Option<string>)
    ensures GetJsValidationSnippet(ValidationDefinition(RangeValidation, RegularExpression(pattern), property))
            == Err(AttributeMismatch(RegularExpression(pattern)))
  {
  }

  /** Collecting is compositional: the rules of a + b are those of a followed by those of b. */
  lemma {:induction false} CollectAppend(rules: ValidationRules, a: seq<Attribute>, b: seq<Attribute>, property: PropertyInfo)
    ensures CollectValidations(rules, a + b, property) == CollectValidations(rules, a, property) + CollectValidations(rules, b, property)
    decreases |b|
  {
    if b == [] {
      assert a + b == a;
    } else {
      var b' := b[..|b| - 1];
      CollectAppend(rules, a, b', property);
      assert (a + b)[..|a + b| - 1] == a + b';
      assert (a + b)[|a + b| - 1] == b[|b| - 1];
    }
  }

  /** An attribute of an unregistered type contributes nothing wherever it stands. */
  lemma SkipsUnregistered(rules: ValidationRules, a: seq<Attribute>, x: Attribute, b: seq<Attribute>, property: PropertyInfo)
    requires KindOf(x) !in rules
    ensures CollectValidations(rules, a + [x] + b, property) == CollectValidations(rules, a + b, property)
  {
    CollectAppend(rules, a + [x], b, property);
    CollectAppend(rules, a, [x], property);
    CollectAppend(rules, a, b, property);
    assert CollectValidations(rules, [x], property) == [] by {
      assert [x][..0] == [];
    }
  }

  /** A registered attribute contributes exactly one rule, bound to itself, at its place. */
  lemma KeepsRegistered(rules: ValidationRules, a: seq<Attribute>, x: Attribute, b: seq<Attribute>, property: PropertyInfo)
    requires KindOf(x) in rules
    ensures CollectValidations(rules, a + [x] + b, property)
            == CollectValidations(rules, a, property) + [ValidationDefinition(rules[KindOf(x)], x, property)] + CollectValidations(rules, b, property)
  {
    CollectAppend(rules, a + [x], b, property);
    CollectAppend(rules, a, [x], property);
    assert CollectValidations(rules, [x], property) == [ValidationDefinition(rules[KindOf(x)], x, property)] by {
      assert [x][..0] == [];
    }
  }

  /** The Required snippet is exactly BackSupport.Validate.Required({ fieldName: 'N'}). */
  lemma RequiredSnippet(attr: Attribute, property: PropertyInfo)
    ensures GetJsValidationSnippet(ValidationDefinition(RequiredValidation, attr, property))
            == Ok("BackSupport.Validate.Required({ fieldName: '" + AsText(JsFieldName(property)) + "'})")
  {
    var n := AsText(JsFieldName(property));
    assert "BackSupport.Validate." + "Required" + "({ fieldName: '" == "BackSupport.Validate.Required({ fieldName: '";
    assert "'" + "" + "})" == "'})";
    assert FactoryCall("Required", n, []) == ("BackSupport.Validate." + "Required" + "({ fieldName: '") + n + ("'" + "" + "})");
  }

  lemma RenderBothLengths(m1: string, m2: string)
    ensures RenderOptions([JsOption("maxLength", m1), JsOption("minLength", m2)]) == ", 'maxLength': " + m1 + ", 'minLength': " + m2
  {
    var options := [JsOption("maxLength", m1), JsOption("minLength", m2)];
    assert options[1..] == [JsOption("minLength", m2)];
    assert ", '" + "maxLength" + "': " == ", 'maxLength': ";
    assert ", '" + "minLength" + "': " == ", 'minLength': ";
    assert RenderOptions(options[1..]) == ", 'minLength': " + m2 by {
      assert options[1..][1..] == [];
    }
    calc {
      RenderOptions(options);
      ", '" + "maxLength" + "': " + m1 + RenderOptions(options[1..]);
      ", 'maxLength': " + m1 + (", 'minLength': " + m2);
    }
  }

  /** With both lengths positive the StringLength snippet carries maxLength and then minLength. */
  lemma StringLengthSnippet(max: nat, min: nat, property: PropertyInfo)
    requires max > 0 && min > 0
    ensures GetJsValidationSnippet(ValidationDefinition(StringLengthValidation, StringLength(max, min), property))
            == Ok("BackSupport.Validate.StringLength({ fieldName: '" + AsText(JsFieldName(property)) + "'"
                  + ", 'maxLength': " + NatToString(max) + ", 'minLength': " + NatToString(min) + "})")
  {
    var n := AsText(JsFieldName(property));
    var m1, m2 := NatToString(max), NatToString(min);
    var options := [JsOption("maxLength", m1), JsOption("minLength", m2)];
    assert SnippetOptions(StringLengthValidation, StringLength(max, min)) == options;
    RenderBothLengths(m1, m2);
    var head := "BackSupport.Validate.StringLength({ fieldName: '";
    assert "BackSupport.Validate." + "StringLength" + "({ fieldName: '" == head;
    calc {
      FactoryCall("StringLength", n, options);
      head + n + "'" + RenderOptions(options) + "})";
      head + n + "'" + (", 'maxLength': " + m1 + ", 'minLength': " + m2) + "})";
      head + n + "'" + ", 'maxLength': " + m1 + ", 'minLength': " + m2 + "})";
    }
  }

  /** The numerals written for the lengths denote the attribute's lengths. */
  lemma StringLengthBoundsReadBack(max: int, min: int)
    ensures var options := SnippetOptions(StringLengthValidation, StringLength(max, min));
            && (max > 0 ==> OptionValue(options, "maxLength").Some? && DecimalValue(OptionValue(options, "maxLength").value) == max)
            && (min > 0 ==> OptionValue(options, "minLength").Some? && DecimalValue(OptionValue(options, "minLength").value) == min)
  {
    if max > 0 {
      DecimalValueNatToString(max);
    }
    if min > 0 {
      DecimalValueNatToString(min);
    }
  }

  /** A Range bound of 0 is written all the same: only a null bound is left out. */
  lemma RangeWritesZero(property: PropertyInfo)
    ensures SnippetOptions(RangeValidation, Range(Some("0"), Some("100"))) == [JsOption("min", "0"), JsOption("max", "100")]
    ensures GetJsValidationSnippet(ValidationDefinition(RangeValidation, Range(Some("0"), None), property))
            == Ok("BackSupport.Validate.Range({ fieldName: '" + AsText(JsFieldName(property)) + "', 'min': 0})")
  {
    var n := AsText(JsFieldName(property));
    var options := [JsOption("min", "0")];
    assert SnippetOptions(RangeValidation, Range(Some("0"), None)) == options;
    assert RenderOptions(options) == ", 'min': 0" by {
      assert ", '" + "min" + "': " + "0" + "" == ", 'min': 0";
    }
    assert "BackSupport.Validate." + "Range" + "({ fieldName: '" == "BackSupport.Validate.Range({ fieldName: '";
    var head := "BackSupport.Validate.Range({ fieldName: '";
    calc {
      FactoryCall("Range", n, options);
      head + n + "'" + ", 'min': 0" + "})";
      head + n + ("'" + ", 'min': 0" + "})");
      { assert "'" + ", 'min': 0" + "})" == "', 'min': 0})"; }
      head + n + "', 'min': 0})";
    }
  }

  /**
   * The regex value of a Regex snippet is the attribute's pattern between quotes, with
   * the quotes escaped and nothing else changed, so UnescapeQuotes recovers the pattern.
   */
  lemma RegexPatternReadBack(pattern: string)
    ensures var value := OptionValue(SnippetOptions(RegexValidation, RegularExpression(Some(pattern))), "regex");
            && value.Some? && |value.value| >= 2 && value.value[0] == '\'' && value.value[|value.value| - 1] == '\''
            && UnescapeQuotes(value.value[1..|value.value| - 1]) == pattern
  {
    var e := EscapeQuotes(pattern);
    assert ("'" + e + "'")[1..|e| + 1] == e;
    UnescapeEscape(pattern);
  }

  /** The field name is the Display description when the property has one. */
  lemma DisplayNamesTheField(name: string, t: HostType, description: string, rest: seq<Attribute>)
    ensures JsFieldName(PropertyInfo(name, t, [StringLength(100, 5), Display(Some(description))] + rest)) == Some(description)
    ensures JsFieldName(PropertyInfo(name, t, [Required, StringLength(100, 5)])) == Some(name)
  {
    var attrs := [StringLength(100, 5), Display(Some(description))] + rest;
    assert attrs[1].Display? && !attrs[0].Display?;
  }
}
