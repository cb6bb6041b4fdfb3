/** The validator side of lib/xsd-elements.ts: restrictions, validators, the five
    built-in validators (plus the binding one) and the `ValidatorFactory` that
    creates them lazily and caches them. */
module XsdElements {
  import opened Wrappers
  import opened Errors
  import opened Text
  import opened Globals
  import opened LangElements
  import Seqs

  /** An XML-schema restriction. Every field may be null. */
  datatype Restriction = Restriction(
    base: Option<string>,
    pattern: Option<string>,
    whiteSpace: Option<string>,
    enumValues: Option<seq<string>>)

  /** A named simple type for attribute values: the type it validates, the other
      validators it is a union with, and its restriction. */
  datatype Validator = Validator(
    validatedType: Type,
    unionMemberTypes: Option<seq<string>>,
    restriction: Option<Restriction>)

  /** `Validator.name` needs a non-empty type name: it upper-cases the name's first character. */
  predicate HasNamedType(v: Validator) {
    |Name(v.validatedType)| > 0
  }

  /** `Validator.name`: the validated type's name, first letter upper-cased, then "Validator". */
  function ValidatorName(v: Validator): (r: string)
    requires HasNamedType(v)
    ensures EndsWith(r, "Validator") && |r| == |Name(v.validatedType)| + 9
    ensures r[1..|r| - 9] == Name(v.validatedType)[1..]
    ensures !IsAsciiLower(r[0])
    ensures r[..|r| - 9] == EnsureStartingUCase(Name(v.validatedType))
  {
    var r := EnsureStartingUCase(Name(v.validatedType)) + "Validator";
    assert r[|r| - 9..] == "Validator";
    r
  }

  // ---------------------------------------------------------------------------
  // The built-in validators

  const BindingKey := "BindingValidator"

  /** The binding-expression pattern `\{\{.*?\}\}`, kept as opaque text. */
  const BindingPattern := "\\{\\{.*?\\}\\}"

  /** The colour pattern. The source literal writes `\d`, which the language's string
      escapes turn into a plain `d`, so this is the text the schema receives. */
  const ColorPattern := "#ddd(ddd)?"

  const LayoutNames := ["StackLayout", "GridLayout", "AbsoluteLayout", "DockLayout", "WrapLayout"]

  const KnownColors := [
      "Transparent", "AliceBlue", "AntiqueWhite", "Aqua", "Aquamarine", "Azure",
      "Beige", "Bisque", "Black", "BlanchedAlmond", "Blue", "BlueViolet",
      "Brown", "BurlyWood", "CadetBlue", "Chartreuse", "Chocolate", "Coral",
      "CornflowerBlue", "Cornsilk", "Crimson", "Cyan", "DarkBlue", "DarkCyan",
      "DarkGoldenRod", "DarkGray", "DarkGreen", "DarkKhaki", "DarkMagenta", "DarkOliveGreen",
      "DarkOrange", "DarkOrchid", "DarkRed", "DarkSalmon", "DarkSeaGreen", "DarkSlateBlue",
      "DarkSlateGray", "DarkTurquoise", "DarkViolet", "DeepPink", "DeepSkyBlue", "DimGray",
      "DodgerBlue", "FireBrick", "FloralWhite", "ForestGreen", "Fuchsia", "Gainsboro",
      "GhostWhite", "Gold", "GoldenRod", "Gray", "Green", "GreenYellow",
      "HoneyDew", "HotPink", "IndianRed", "Indigo", "Ivory", "Khaki",
      "Lavender", "LavenderBlush", "LawnGreen", "LemonChiffon", "LightBlue", "LightCoral",
      "LightCyan", "LightGoldenRodYellow", "LightGray", "LightGreen", "LightPink", "LightSalmon",
      "LightSeaGreen", "LightSkyBlue", "LightSlateGray", "LightSteelBlue", "LightYellow", "Lime",
      "LimeGreen", "Linen", "Magenta", "Maroon", "MediumAquaMarine", "MediumBlue",
      "MediumOrchid", "MediumPurple", "MediumSeaGreen", "MediumSlateBlue", "MediumSpringGreen", "MediumTurquoise",
      "MediumVioletRed", "MidnightBlue", "MintCream", "MistyRose", "Moccasin", "NavajoWhite",
      "Navy", "OldLace", "Olive", "OliveDrab", "Orange", "OrangeRed",
      "Orchid", "PaleGoldenRod", "PaleGreen", "PaleTurquoise", "PaleVioletRed", "PapayaWhip",
      "PeachPuff", "Peru", "Pink", "Plum", "PowderBlue", "Purple",
      "Red", "RosyBrown", "RoyalBlue", "SaddleBrown", "Salmon", "SandyBrown",
      "SeaGreen", "SeaShell", "Sienna", "Silver", "SkyBlue", "SlateBlue",
      "SlateGray", "Snow", "SpringGreen", "SteelBlue", "Tan", "Teal",
      "Thistle", "Tomato", "Turquoise", "Violet", "Wheat", "White",
      "WhiteSmoke", "Yellow", "YellowGreen"
    ]

  const LayoutFullName := "\"ui/layouts/layout\".Layout"
  const ColorFullName := "\"color\".Color"

  const BindingValidator :=
    Validator(Type("Binding"), None,
              Some(Restriction(Some("xs:string"), Some(BindingPattern), Some("collapse"), None)))
  const StringValidator :=
    Validator(Type("string"), Some([BindingKey]), Some(Restriction(Some("xs:string"), None, None, None)))
  const NumberValidator :=
    Validator(Type("number"), Some([BindingKey]), Some(Restriction(Some("xs:integer"), None, None, None)))
  const BooleanValidator :=
    Validator(Type("boolean"), Some([BindingKey]), Some(Restriction(Some("xs:boolean"), None, None, None)))
  const LayoutNamesValidator :=
    Validator(Type(LayoutFullName), Some([BindingKey]),
              Some(Restriction(Some("xs:string"), None, None, Some(LayoutNames))))
  const ColorValidator :=
    Validator(Type(ColorFullName), Some([BindingKey]),
              Some(Restriction(Some("xs:string"), Some(ColorPattern), None, Some(KnownColors))))

  /** The index keys under which the factory caches the built-in validators. */
  predicate IsValidatorKey(key: string) {
    key in {"NumberValidator", BindingKey, "ColorValidator", "BooleanValidator",
            "LayoutNamesValidator", "StringValidator"}
  }

  /** The validator each index key stands for. */
  function BuiltIn(key: string): Validator
    requires IsValidatorKey(key)
  {
    match key
    case "NumberValidator" => NumberValidator
    case "BindingValidator" => BindingValidator
    case "ColorValidator" => ColorValidator
    case "BooleanValidator" => BooleanValidator
    case "LayoutNamesValidator" => LayoutNamesValidator
    case _ => StringValidator
  }

  /** The fixed mapping of `_createValidator` from a type's full name to an index
      key; absent for a type the factory cannot validate. */
  function ValidatorKey(fullName: string): (r: Option<string>)
    ensures r.Some? ==> IsValidatorKey(r.value)
  {
    match fullName
    case "number" => Some("NumberValidator")
    case "Binding" => Some(BindingKey)
    case "\"color\".Color" => Some("ColorValidator")
    case "boolean" => Some("BooleanValidator")
    case "\"ui/layouts/layout\".Layout" => Some("LayoutNamesValidator")
    case "string" => Some("StringValidator")
    case "style" => Some("StringValidator")
    case "\"text/formatted-string\".FormattedString" => Some("StringValidator")
    case "\"ui/styling\".Style" => Some("StringValidator")
    case "Date" => Some("StringValidator")
    case "Array" => Some("StringValidator")
    case "\"ui/page\".OptionsMenu" => Some("StringValidator")
    case "\"ui/action-bar\".NavigationButton" => Some("StringValidator")
    case "\"ui/action-bar\".ActionItems" => Some("StringValidator")
    case "\"ui/page\".Page" => Some("StringValidator")
    case _ => None
  }

  /** The schema name each built-in validator is emitted under. The layout
      validator is indexed as "LayoutNamesValidator" but named "LayoutValidator". */
  function KeyName(key: string): string
    requires IsValidatorKey(key)
  {
    if key == "LayoutNamesValidator" then "LayoutValidator" else key
  }

  lemma NameOfPlain(s: string)
    requires '.' !in s
    ensures Name(Type(s)) == s
  {
  }

  lemma NumberName()
    ensures HasNamedType(NumberValidator) && ValidatorName(NumberValidator) == "NumberValidator"
  {
    NameOfPlain("number");
    UCaseNumber();
    AppendNumber();
  }

  lemma UCaseNumber()
    ensures EnsureStartingUCase("number") == "Number"
  {
  }

  lemma AppendNumber()
    ensures "Number" + "Validator" == "NumberValidator"
  {
  }

  lemma BindingName()
    ensures HasNamedType(BindingValidator) && ValidatorName(BindingValidator) == "BindingValidator"
  {
    NameOfPlain("Binding");
    UCaseBinding();
    AppendBinding();
  }

  lemma UCaseBinding()
    ensures EnsureStartingUCase("Binding") == "Binding"
  {
  }

  lemma AppendBinding()
    ensures "Binding" + "Validator" == "BindingValidator"
  {
  }

  lemma BooleanName()
    ensures HasNamedType(BooleanValidator) && ValidatorName(BooleanValidator) == "BooleanValidator"
  {
    NameOfPlain("boolean");
    UCaseBoolean();
    AppendBoolean();
  }

  lemma UCaseBoolean()
    ensures EnsureStartingUCase("boolean") == "Boolean"
  {
  }

  lemma AppendBoolean()
    ensures "Boolean" + "Validator" == "BooleanValidator"
  {
  }

  lemma StringName()
    ensures HasNamedType(StringValidator) && ValidatorName(StringValidator) == "StringValidator"
  {
    NameOfPlain("string");
    UCaseString();
    AppendString();
  }

  lemma UCaseString()
    ensures EnsureStartingUCase("string") == "String"
  {
  }

  lemma AppendString()
    ensures "String" + "Validator" == "StringValidator"
  {
  }

  lemma ColorName()
    ensures HasNamedType(ColorValidator) && ValidatorName(ColorValidator) == "ColorValidator"
  {
    NameOfColor();
    UCaseColor();
    AppendColor();
  }

  lemma NameOfColor()
    ensures Name(Type(ColorFullName)) == "Color"
  {
    var p := "\"color\"";
    assert ColorFullName == p + "." + "Color";
    assert NoLineTerminators(p + "." + "Color");
    NameOfQualified(p, "Color");
  }

  lemma UCaseColor()
    ensures EnsureStartingUCase("Color") == "Color"
  {
  }

  lemma AppendColor()
    ensures "Color" + "Validator" == "ColorValidator"
  {
  }

  lemma LayoutNamesName()
    ensures HasNamedType(LayoutNamesValidator) && ValidatorName(LayoutNamesValidator) == "LayoutValidator"
  {
    NameOfLayout();
    UCaseLayout();
    AppendLayout();
  }

  lemma NameOfLayout()
    ensures Name(Type(LayoutFullName)) == "Layout"
  {
    var p := "\"ui/layouts/layout\"";
    assert LayoutFullName == p + "." + "Layout";
    assert NoLineTerminators(p + "." + "Layout");
    NameOfQualified(p, "Layout");
  }

  lemma UCaseLayout()
    ensures EnsureStartingUCase("Layout") == "Layout"
  {
  }

  lemma AppendLayout()
    ensures "Layout" + "Validator" == "LayoutValidator"
  {
  }

  /** Every built-in validator has a name, and it is the one `KeyName` lists. */
  lemma BuiltInName(key: string)
    requires IsValidatorKey(key)
    ensures HasNamedType(BuiltIn(key))
    ensures ValidatorName(BuiltIn(key)) == KeyName(key)
  {
    if key == "NumberValidator" { NumberName(); }
    else if key == BindingKey { BindingName(); }
    else if key == "ColorValidator" { ColorName(); }
    else if key == "BooleanValidator" { BooleanName(); }
    else if key == "LayoutNamesValidator" { LayoutNamesName(); }
    else { StringName(); }
  }

  /** Distinct index keys give distinct schema names. */
  lemma KeyNamesDistinct(k1: string, k2: string)
    requires IsValidatorKey(k1) && IsValidatorKey(k2) && k1 != k2
    ensures KeyName(k1) != KeyName(k2)
  {
  }

  /** The binding validator is the only one without union members; every other
      built-in is a union with exactly the binding validator. */
  lemma BuiltInUnions(key: string)
    requires IsValidatorKey(key)
    ensures key == BindingKey <==> BuiltIn(key).unionMemberTypes.None?
    ensures key != BindingKey ==> BuiltIn(key).unionMemberTypes == Some([BindingKey])
    ensures BuiltIn(key).restriction.Some?
  {
  }

  /** Distinct index keys stand for distinct validators. */
  lemma BuiltInInjective(k1: string, k2: string)
    requires IsValidatorKey(k1) && IsValidatorKey(k2) && k1 != k2
    ensures BuiltIn(k1) != BuiltIn(k2)
  {
    assert BuiltIn(k1).validatedType != BuiltIn(k2).validatedType;
  }

  // ---------------------------------------------------------------------------
  // ValidatorFactory

  /** The factory's state: `registered` caches validators by type full name,
      `index` caches them by index key, and `order` lists the index keys in the
      order they were first inserted (the iteration order of the index map). */
  datatype Factory = Factory(
    registered: map<string, Validator>,
    index: map<string, Validator>,
    order: seq<string>)

  /** What every factory state satisfies: a type is cached under the validator its
      index key stands for, the index holds only built-ins under their own keys,
      and `order` lists the index keys once each. */
  ghost predicate Consistent(f: Factory) {
    && (forall t :: t in f.registered ==>
          && ValidatorKey(t).Some?
          && ValidatorKey(t).value in f.index
          && f.registered[t] == f.index[ValidatorKey(t).value])
    && (forall k :: k in f.index ==> IsValidatorKey(k) && f.index[k] == BuiltIn(k))
    && (forall i :: 0 <= i < |f.order| ==> f.order[i] in f.index)
    && (forall k :: k in f.index ==> k in f.order)
    && Seqs.Distinct(f.order)
  }

  /** A factory as the constructor leaves it: consistent, with the binding
      validator registered, and registered first. */
  ghost predicate Valid(f: Factory) {
    && Consistent(f)
    && "Binding" in f.registered
    && |f.order| > 0 && f.order[0] == BindingKey
  }

  /** Nothing cached in `f` changed in `g`, and `g`'s order only grew at the end. */
  ghost predicate Extends(f: Factory, g: Factory) {
    && (forall t :: t in f.registered ==> t in g.registered && g.registered[t] == f.registered[t])
    && (forall k :: k in f.index ==> k in g.index && g.index[k] == f.index[k])
    && |f.order| <= |g.order| && g.order[..|f.order|] == f.order
  }

  lemma ExtendsTransitive(f: Factory, g: Factory, h: Factory)
    requires Extends(f, g) && Extends(g, h)
    ensures Extends(f, h)
  {
    assert h.order[..|f.order|] == h.order[..|g.order|][..|f.order|];
  }

  /** The factory after a lookup, and the validator found or the error thrown. */
  datatype Lookup = Lookup(factory: Factory, outcome: Result<Validator, Error>)

  /** `_retrieveValidator`: the validator cached under `key`, creating and caching
      it on first use. */
  function RetrieveValidator(f: Factory, key: string): (r: (Factory, Validator))
    requires Consistent(f) && IsValidatorKey(key)
    ensures Consistent(r.0) && Extends(f, r.0)
    ensures r.1 == BuiltIn(key) && key in r.0.index
    ensures r.0.registered == f.registered
    ensures r.0.index == f.index[key := BuiltIn(key)]
    ensures key in f.index ==> r.0 == f
    ensures key !in f.index ==> r.0.order == f.order + [key]
  {
    if key in f.index then
      (f, f.index[key])
    else
      var g := f.(index := f.index[key := BuiltIn(key)], order := f.order + [key]);
      InsertKeepsConsistent(f, key, g);
      (g, g.index[key])
  }

  /** Caching a new built-in under its key, at the end of the order, keeps the
      factory consistent and extends it. */
  lemma InsertKeepsConsistent(f: Factory, key: string, g: Factory)
    requires Consistent(f) && IsValidatorKey(key) && key !in f.index
    requires g == f.(index := f.index[key := BuiltIn(key)], order := f.order + [key])
    ensures Consistent(g) && Extends(f, g)
  {
    assert key !in f.order;
    Seqs.DistinctSnoc(f.order, key);
    forall k | k in g.index ensures k in g.order {
      if k != key {
        assert k in f.order;
      }
    }
    assert g.order[..|f.order|] == f.order;
  }

  /** `_createValidator`: the validator the fixed mapping assigns to the type, or
      the "No validator" error for an unmapped one, before anything is cached. */
  function CreateValidator(f: Factory, t: Type): (r: Lookup)
    requires Consistent(f)
    ensures Consistent(r.factory) && Extends(f, r.factory)
    ensures r.factory.registered == f.registered
    ensures ValidatorKey(t.fullName).None? ==> r == Lookup(f, Err(NoValidator(t.fullName)))
    ensures ValidatorKey(t.fullName).Some? ==>
              var key := ValidatorKey(t.fullName).value;
              && r.outcome == Ok(BuiltIn(key))
              && r.factory.index == f.index[key := BuiltIn(key)]
              && r.factory.order == (if key in f.index then f.order else f.order + [key])
  {
    match ValidatorKey(t.fullName)
    case None => Lookup(f, Err(NoValidator(t.fullName)))
    case Some(key) =>
      var (g, v) := RetrieveValidator(f, key);
      Lookup(g, Ok(v))
  }

  /** `getValidator`: the validator cached for the type's full name; on a miss the
      validator is created, cached under the full name, and looked up again. An
      unmapped type fails and leaves both caches as they were. */
  function GetValidator(f: Factory, t: Type): (r: Lookup)
    requires Consistent(f)
    ensures Consistent(r.factory) && Extends(f, r.factory)
    ensures r.outcome.Ok? <==> ValidatorKey(t.fullName).Some?
    ensures r.outcome.Err? ==> r.factory == f && r.outcome.error == NoValidator(t.fullName)
    ensures t.fullName in f.registered ==> r.factory == f
    ensures r.outcome.Ok? ==>
              var key := ValidatorKey(t.fullName).value;
              && r.outcome.value == BuiltIn(key)
              && t.fullName in r.factory.registered
              && r.factory.registered[t.fullName] == r.outcome.value
              && r.factory.registered.Keys == f.registered.Keys + {t.fullName}
              && r.factory.index == f.index[key := BuiltIn(key)]
              && r.factory.order == (if key in f.index then f.order else f.order + [key])
    decreases if t.fullName in f.registered then 0 else 1
  {
    if t.fullName !in f.registered then
      var created := CreateValidator(f, t);
      if created.outcome.Err? then
        created
      else
        GetValidator(CacheCreated(f, t, created), t)
    else
      Lookup(f, Ok(f.registered[t.fullName]))
  }

  /** The miss path of `getValidator`: the factory after the created validator is
      cached under the type's full name. */
  function CacheCreated(f: Factory, t: Type, created: Lookup): (g: Factory)
    requires Consistent(f) && t.fullName !in f.registered
    requires created == CreateValidator(f, t) && created.outcome.Ok?
    ensures Consistent(g) && Extends(f, g)
    ensures var key := ValidatorKey(t.fullName).value;
            && g.registered == f.registered[t.fullName := BuiltIn(key)]
            && g.index == f.index[key := BuiltIn(key)]
            && g.order == (if key in f.index then f.order else f.order + [key])
  {
    var g := created.factory;
    g.(registered := g.registered[t.fullName := created.outcome.value])
  }

  /** The `ValidatorFactory` constructor: the binding validator is registered
      before anything else. */
  function NewFactory(): (f: Factory)
    ensures Valid(f)
    ensures f.registered == map["Binding" := BindingValidator]
    ensures f.index == map[BindingKey := BindingValidator]
    ensures f.order == [BindingKey]
  {
    var empty := Factory(map[], map[], []);
    var r := GetValidator(empty, Type("Binding"));
    assert r.factory.registered.Keys == {"Binding"};
    r.factory
  }

  /** `getRegisteredValidators`: the index's validators in first-registration order. */
  function GetRegisteredValidators(f: Factory): (vs: seq<Validator>)
    requires Consistent(f)
    ensures |vs| == |f.order|
    ensures forall i :: 0 <= i < |vs| ==> IsValidatorKey(f.order[i]) && vs[i] == BuiltIn(f.order[i])
    ensures forall t :: t in f.registered ==> f.registered[t] in vs
    ensures forall i, j :: 0 <= i < j < |vs| ==> vs[i] != vs[j]
    ensures Valid(f) ==> vs[0] == BindingValidator
  {
    var vs := seq(|f.order|, i requires 0 <= i < |f.order| => f.index[f.order[i]]);
    RegisteredListed(f, vs);
    ListedDistinct(f, vs);
    vs
  }

  lemma RegisteredListed(f: Factory, vs: seq<Validator>)
    requires Consistent(f)
    requires |vs| == |f.order| && forall i :: 0 <= i < |vs| ==> vs[i] == f.index[f.order[i]]
    ensures forall t :: t in f.registered ==> f.registered[t] in vs
  {
    forall t | t in f.registered ensures f.registered[t] in vs {
      var key := ValidatorKey(t).value;
      assert key in f.order;
      var i :| 0 <= i < |f.order| && f.order[i] == key;
      assert vs[i] == f.registered[t];
    }
  }

  lemma ListedDistinct(f: Factory, vs: seq<Validator>)
    requires Consistent(f)
    requires |vs| == |f.order| && forall i :: 0 <= i < |vs| ==> vs[i] == f.index[f.order[i]]
    ensures forall i, j :: 0 <= i < j < |vs| ==> vs[i] != vs[j]
  {
    forall i, j | 0 <= i < j < |vs| ensures vs[i] != vs[j] {
      BuiltInInjective(f.order[i], f.order[j]);
    }
  }

  /** Every lookup keeps a constructed factory valid. */
  lemma GetValidatorKeepsValid(f: Factory, t: Type)
    requires Valid(f)
    ensures Valid(GetValidator(f, t).factory)
  {
    var g := GetValidator(f, t).factory;
    assert g.order[..|f.order|] == f.order;
    assert g.order[0] == g.order[..|f.order|][0];
  }

  /** A second lookup of the same type is answered from the cache and changes nothing. */
  lemma GetValidatorIdempotent(f: Factory, t: Type)
    requires Consistent(f)
    ensures var r := GetValidator(f, t);
            GetValidator(r.factory, t) == r
  {
  }

  /** Two types that share an index key share one validator, registered once:
      looking up the second adds a name to the cache but nothing to the index. */
  lemma SharedKeyRegisteredOnce(f: Factory, t1: Type, t2: Type)
    requires Consistent(f)
    requires ValidatorKey(t1.fullName).Some? && ValidatorKey(t1.fullName) == ValidatorKey(t2.fullName)
    ensures var r1 := GetValidator(f, t1);
            var r2 := GetValidator(r1.factory, t2);
            && r2.outcome == r1.outcome
            && r2.factory.index == r1.factory.index
            && r2.factory.order == r1.factory.order
  {
  }

  /** The registered validators carry pairwise distinct names, as the schema's
      simple-type names must be. */
  lemma RegisteredNamesDistinct(f: Factory)
    requires Consistent(f)
    ensures var vs := GetRegisteredValidators(f);
            forall i :: 0 <= i < |vs| ==> HasNamedType(vs[i])
    ensures var vs := GetRegisteredValidators(f);
            forall i, j :: 0 <= i < j < |vs| ==> ValidatorName(vs[i]) != ValidatorName(vs[j])
  {
    var vs := GetRegisteredValidators(f);
    forall i | 0 <= i < |vs| ensures HasNamedType(vs[i]) {
      BuiltInName(f.order[i]);
    }
    forall i, j | 0 <= i < j < |vs| ensures ValidatorName(vs[i]) != ValidatorName(vs[j]) {
      BuiltInName(f.order[i]);
      BuiltInName(f.order[j]);
      KeyNamesDistinct(f.order[i], f.order[j]);
    }
  }

  /** A type without a mapping fails with the "No validator" error and caches nothing. */
  lemma UnmappedTypeExample(f: Factory)
    requires Consistent(f)
    ensures GetValidator(f, Type("any")) == Lookup(f, Err(NoValidator("any")))
    ensures NoValidator("any").Message() == "No validator for type any!"
  {
    AnyUnmapped();
    var r := GetValidator(f, Type("any"));
    assert r.outcome.Err?;
    assert r.factory == f && r.outcome.error == NoValidator("any");
    NoValidatorAnyMessage();
  }

  lemma AnyUnmapped()
    ensures ValidatorKey("any").None?
  {
  }

  lemma NoValidatorAnyMessage()
    ensures NoValidator("any").Message() == "No validator for type any!"
  {
  }

  lemma StringKeyOfString()
    ensures ValidatorKey("string") == Some("StringValidator")
  {
  }

  lemma BuiltInString()
    ensures BuiltIn("StringValidator") == StringValidator
  {
  }

  lemma BuiltInBinding()
    ensures BuiltIn(BindingKey) == BindingValidator
  {
  }

  /** A fresh factory answers `string` with the string validator, which is
      registered second, after the binding validator. */
  lemma StringLookupExample()
    ensures var r := GetValidator(NewFactory(), Type("string"));
            && r.outcome == Ok(StringValidator)
            && GetRegisteredValidators(r.factory) == [BindingValidator, StringValidator]
    ensures HasNamedType(StringValidator) && ValidatorName(StringValidator) == "StringValidator"
  {
    StringLookupAfterBinding(NewFactory());
    StringName();
  }

  /** A fresh factory has registered the binding validator and nothing else. */
  lemma FreshFactoryExample()
    ensures GetRegisteredValidators(NewFactory()) == [BindingValidator]
    ensures HasNamedType(BindingValidator) && ValidatorName(BindingValidator) == "BindingValidator"
  {
    BindingName();
    BuiltInBinding();
    var vs := GetRegisteredValidators(NewFactory());
    assert |vs| == 1 && vs[0] == BuiltIn(BindingKey);
  }

  /** The string lookup on any factory that holds the binding validator alone. */
  lemma StringLookupAfterBinding(f: Factory)
    requires Consistent(f)
    requires f.registered == map["Binding" := BindingValidator]
    requires f.index == map[BindingKey := BindingValidator]
    requires f.order == [BindingKey]
    ensures var r := GetValidator(f, Type("string"));
            && r.outcome == Ok(StringValidator)
            && GetRegisteredValidators(r.factory) == [BindingValidator, StringValidator]
  {
    StringKeyOfString();
    BuiltInString();
    assert "StringValidator" != BindingKey;
    assert "StringValidator" !in f.index;
    var r := GetValidator(f, Type("string"));
    assert r.factory.order == [BindingKey, "StringValidator"];
    BindingThenString(r.factory);
  }

  lemma BindingThenString(f: Factory)
    requires Consistent(f) && f.order == [BindingKey, "StringValidator"]
    ensures GetRegisteredValidators(f) == [BindingValidator, StringValidator]
  {
    BuiltInString();
    BuiltInBinding();
    var vs := GetRegisteredValidators(f);
    assert vs[0] == BuiltIn(BindingKey);
    assert vs[1] == BuiltIn("StringValidator");
  }
}
