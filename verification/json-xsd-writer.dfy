/**
 * The schema writers of lib/json-xsd-writer.ts. Each writer is modelled as the
 * sequence of xml-writer calls it makes, in the order the source makes them, and
 * is proved equal to the serialisation of a declarative description of the
 * schema fragment it stands for.
 */
module JsonXsdWriter {
  import opened Wrappers
  import opened Errors
  import opened Text
  import opened Globals
  import opened LangElements
  import opened XsdElements
  import opened Xml
  import Seqs

  // ---------------------------------------------------------------------------
  // RestrictionWriter

  /** JavaScript truthiness of an optional string: present and not empty. */
  predicate Truthy(s: Option<string>) {
    s.Some? && |s.value| > 0
  }

  /** An element whose only content is a `value` attribute. */
  function ValueElement(name: string, value: string): Node {
    Element(name, [Attribute("value", value)], [])
  }

  function EnumerationNodes(values: seq<string>): seq<Node> {
    seq(|values|, i requires 0 <= i < |values| => ValueElement("xs:enumeration", values[i]))
  }

  /** The facet element for an optional string field, when it is set. */
  function OptionalValueElement(name: string, value: Option<string>): seq<Node> {
    if Truthy(value) then [ValueElement(name, value.value)] else []
  }

  function BaseAttributes(r: Restriction): seq<Attribute> {
    if Truthy(r.base) then [Attribute("base", r.base.value)] else []
  }

  /** A pattern facet, a white-space facet and one enumeration facet per value,
      each only when the field is set. */
  function FacetNodes(r: Restriction): seq<Node> {
    OptionalValueElement("xs:pattern", r.pattern)
    + OptionalValueElement("xs:whiteSpace", r.whiteSpace)
    + (if r.enumValues.Some? then EnumerationNodes(r.enumValues.value) else [])
  }

  /** The `xs:restriction` element a restriction stands for: its base as an
      attribute, then its facets. */
  function RestrictionNode(r: Restriction): Node {
    Element("xs:restriction", BaseAttributes(r), FacetNodes(r))
  }

  function ValueEvents(name: string, value: string): seq<Event> {
    [StartElement(name), WriteAttribute("value", value), EndElement]
  }

  function OptionalValueEvents(name: string, value: Option<string>): seq<Event> {
    if Truthy(value) then ValueEvents(name, value.value) else []
  }

  function EnumerationEvents(values: seq<string>): seq<Event>
    decreases |values|
  {
    if |values| == 0 then []
    else ValueEvents("xs:enumeration", values[0]) + EnumerationEvents(values[1..])
  }

  function FacetEvents(r: Restriction): seq<Event> {
    OptionalValueEvents("xs:pattern", r.pattern)
    + OptionalValueEvents("xs:whiteSpace", r.whiteSpace)
    + (if r.enumValues.Some? then EnumerationEvents(r.enumValues.value) else [])
  }

  /** The calls `RestrictionWriter.write` makes for a non-null restriction. */
  function RestrictionEvents(r: Restriction): seq<Event> {
    [StartElement("xs:restriction")]
    + (if Truthy(r.base) then [WriteAttribute("base", r.base.value)] else [])
    + FacetEvents(r)
    + [EndElement]
  }

  lemma ValueElementEvents(name: string, value: string)
    ensures Serialize(ValueElement(name, value)) == ValueEvents(name, value)
  {
    assert AttributeEvents([Attribute("value", value)]) == [WriteAttribute("value", value)];
  }

  lemma {:induction false} EnumerationEventsMatch(values: seq<string>)
    ensures EnumerationEvents(values) == SerializeAll(EnumerationNodes(values))
    decreases |values|
  {
    if |values| > 0 {
      var ns := EnumerationNodes(values);
      assert ns[0] == ValueElement("xs:enumeration", values[0]);
      assert ns[1..] == EnumerationNodes(values[1..]);
      ValueElementEvents("xs:enumeration", values[0]);
      EnumerationEventsMatch(values[1..]);
    }
  }

  lemma OptionalValueMatch(name: string, value: Option<string>)
    ensures SerializeAll(OptionalValueElement(name, value)) == OptionalValueEvents(name, value)
  {
    if Truthy(value) {
      SerializeAllOne(ValueElement(name, value.value));
      ValueElementEvents(name, value.value);
    }
  }

  lemma FacetEventsMatch(r: Restriction)
    ensures FacetEvents(r) == SerializeAll(FacetNodes(r))
  {
    var p := OptionalValueElement("xs:pattern", r.pattern);
    var w := OptionalValueElement("xs:whiteSpace", r.whiteSpace);
    var e := if r.enumValues.Some? then EnumerationNodes(r.enumValues.value) else [];
    SerializeAllAppend(p + w, e);
    SerializeAllAppend(p, w);
    OptionalValueMatch("xs:pattern", r.pattern);
    OptionalValueMatch("xs:whiteSpace", r.whiteSpace);
    if r.enumValues.Some? {
      EnumerationEventsMatch(r.enumValues.value);
    }
  }

  lemma RestrictionEventsMatch(r: Restriction)
    ensures RestrictionEvents(r) == Serialize(RestrictionNode(r))
  {
    FacetEventsMatch(r);
    assert AttributeEvents(BaseAttributes(r))
        == if Truthy(r.base) then [WriteAttribute("base", r.base.value)] else [];
  }

  /** `RestrictionWriter.write`: a null restriction is an error raised before any
      call; otherwise the calls write exactly the restriction's element, and they
      are balanced. */
  function WriteRestriction(r: Option<Restriction>): (es: Result<seq<Event>, Error>)
    ensures es.Err? <==> r.None?
    ensures es.Err? ==> es.error == NullRestriction
    ensures es.Ok? ==> es.value == Serialize(RestrictionNode(r.value)) && Balanced(es.value)
  {
    match r
    case None => Err(NullRestriction)
    case Some(x) =>
      RestrictionEventsMatch(x);
      SerializeBalanced(RestrictionNode(x));
      Ok(RestrictionEvents(x))
  }

  /** A restriction with every field null writes an empty element. */
  lemma EmptyRestrictionExample()
    ensures WriteRestriction(Some(Restriction(None, None, None, None)))
         == Ok([StartElement("xs:restriction"), EndElement])
  {
    var x := Restriction(None, None, None, None);
    assert FacetEvents(x) == [];
    assert RestrictionEvents(x) == [StartElement("xs:restriction")] + [] + [] + [EndElement];
    assert RestrictionEvents(x) == [StartElement("xs:restriction"), EndElement];
  }

  /** The enumeration facets come in list order, after the base attribute. */
  lemma EnumeratedRestrictionExample()
    ensures WriteRestriction(Some(Restriction(Some("xs:string"), None, None, Some(["Android", "iOS"]))))
         == Ok([StartElement("xs:restriction"), WriteAttribute("base", "xs:string"),
                StartElement("xs:enumeration"), WriteAttribute("value", "Android"), EndElement,
                StartElement("xs:enumeration"), WriteAttribute("value", "iOS"), EndElement,
                EndElement])
  {
    var values := ["Android", "iOS"];
    var x := Restriction(Some("xs:string"), None, None, Some(values));
    assert values[1..] == ["iOS"];
    assert ["iOS"][1..] == [];
    var enums := ValueEvents("xs:enumeration", "Android") + ValueEvents("xs:enumeration", "iOS");
    assert EnumerationEvents(values) == enums;
    assert FacetEvents(x) == enums;
    assert RestrictionEvents(x)
        == [StartElement("xs:restriction")] + [WriteAttribute("base", "xs:string")] + enums + [EndElement];
    assert RestrictionEvents(x)
        == [StartElement("xs:restriction"), WriteAttribute("base", "xs:string"),
            StartElement("xs:enumeration"), WriteAttribute("value", "Android"), EndElement,
            StartElement("xs:enumeration"), WriteAttribute("value", "iOS"), EndElement,
            EndElement];
  }

  /** An empty string counts as absent: no attribute and no facet. */
  lemma EmptyFieldsAreSkipped()
    ensures WriteRestriction(Some(Restriction(Some(""), Some(""), Some(""), None)))
         == Ok([StartElement("xs:restriction"), EndElement])
  {
    var x := Restriction(Some(""), Some(""), Some(""), None);
    assert FacetEvents(x) == [];
    assert RestrictionEvents(x) == [StartElement("xs:restriction")] + [] + [] + [EndElement];
    assert RestrictionEvents(x) == [StartElement("xs:restriction"), EndElement];
  }

  // ---------------------------------------------------------------------------
  // ValidatorWriter

  /** The validator has a union to write: a non-null, non-empty member list. */
  predicate HasUnion(v: Validator) {
    v.unionMemberTypes.Some? && |v.unionMemberTypes.value| > 0
  }

  function RestrictionNodes(v: Validator): seq<Node> {
    if v.restriction.Some? then [RestrictionNode(v.restriction.value)] else []
  }

  /** The `xs:simpleType` a validator stands for: named after the validator, holding
      its restriction, inside an anonymous simple type of a union with the member
      types when it has any. */
  function ValidatorNode(v: Validator): Node
    requires HasNamedType(v)
  {
    Element("xs:simpleType", [Attribute("name", ValidatorName(v))],
      if HasUnion(v) then
        [Element("xs:union", [Attribute("memberTypes", Join(v.unionMemberTypes.value, " "))],
                 [Element("xs:simpleType", [], RestrictionNodes(v))])]
      else RestrictionNodes(v))
  }

  function InnerEvents(v: Validator): seq<Event> {
    if v.restriction.Some? then RestrictionEvents(v.restriction.value) else []
  }

  /** The calls between a simple type's name and its end: the union wrapper when
      there are member types, the restriction when there is one. */
  function ContentEvents(v: Validator): seq<Event> {
    if HasUnion(v) then
      [StartElement("xs:union")]
      + [WriteAttribute("memberTypes", Join(v.unionMemberTypes.value, " "))]
      + ([StartElement("xs:simpleType")] + InnerEvents(v) + [EndElement])
      + [EndElement]
    else InnerEvents(v)
  }

  /** The calls `ValidatorWriter.write` makes. */
  function ValidatorEvents(v: Validator): seq<Event>
    requires HasNamedType(v)
  {
    [StartElement("xs:simpleType")]
    + [WriteAttribute("name", ValidatorName(v))]
    + ContentEvents(v)
    + [EndElement]
  }

  lemma RestrictionNodesMatch(v: Validator)
    ensures SerializeAll(RestrictionNodes(v)) == InnerEvents(v)
  {
    if v.restriction.Some? {
      SerializeAllOne(RestrictionNode(v.restriction.value));
      RestrictionEventsMatch(v.restriction.value);
    }
  }

  /** The union wrapper writes its member list, then the anonymous simple type around
      the restriction's calls. */
  lemma UnionWrapMatch(members: string, restrictionNodes: seq<Node>, inner: seq<Event>)
    requires inner == SerializeAll(restrictionNodes)
    ensures SerializeAll([Element("xs:union", [Attribute("memberTypes", members)],
                                  [Element("xs:simpleType", [], restrictionNodes)])])
         == [StartElement("xs:union")]
            + [WriteAttribute("memberTypes", members)]
            + ([StartElement("xs:simpleType")] + inner + [EndElement])
            + [EndElement]
  {
    var memberEvents := [WriteAttribute("memberTypes", members)];
    assert AttributeEvents([]) == [];
    assert AttributeEvents([Attribute("memberTypes", members)]) == memberEvents;
    var typeEvents := [StartElement("xs:simpleType")] + [] + inner + [EndElement];
    SerializeAllSingle("xs:simpleType", [], restrictionNodes, [], inner);
    SerializeAllSingle("xs:union", [Attribute("memberTypes", members)],
                       [Element("xs:simpleType", [], restrictionNodes)], memberEvents, typeEvents);
    assert typeEvents == [StartElement("xs:simpleType")] + inner + [EndElement];
  }

  lemma ContentEventsMatch(v: Validator)
    requires HasNamedType(v)
    ensures ContentEvents(v) == SerializeAll(ValidatorNode(v).children)
  {
    RestrictionNodesMatch(v);
    if HasUnion(v) {
      UnionWrapMatch(Join(v.unionMemberTypes.value, " "), RestrictionNodes(v), InnerEvents(v));
    }
  }

  lemma ValidatorEventsMatch(v: Validator)
    requires HasNamedType(v)
    ensures ValidatorEvents(v) == Serialize(ValidatorNode(v))
  {
    ContentEventsMatch(v);
    assert AttributeEvents([Attribute("name", ValidatorName(v))]) == [WriteAttribute("name", ValidatorName(v))];
  }

  /** `ValidatorWriter.write`: the calls write exactly the validator's simple type,
      and they are balanced. A restriction is written only when present, so the
      restriction writer's null error cannot arise here. */
  function WriteValidator(v: Validator): (es: seq<Event>)
    requires HasNamedType(v)
    ensures es == Serialize(ValidatorNode(v)) && Balanced(es)
    ensures |es| >= 3 && es[0] == StartElement("xs:simpleType")
         && es[1] == WriteAttribute("name", ValidatorName(v))
  {
    ValidatorEventsMatch(v);
    SerializeBalanced(ValidatorNode(v));
    ValidatorEvents(v)
  }

  /** The name depends on the validated type only. */
  lemma StringTypeName(v: Validator)
    requires v.validatedType == Type("string")
    ensures HasNamedType(v) && ValidatorName(v) == "StringValidator"
  {
    StringName();
    assert v.validatedType == StringValidator.validatedType;
  }

  /** A validator with neither union members nor restriction is an empty simple type. */
  lemma PlainValidatorEvents(v: Validator)
    requires HasNamedType(v) && !HasUnion(v) && v.restriction.None?
    ensures WriteValidator(v) == [StartElement("xs:simpleType"), WriteAttribute("name", ValidatorName(v)), EndElement]
  {
    assert ContentEvents(v) == [];
  }

  /** A null member list and an empty one are written alike. */
  lemma SimplestValidatorExample(members: Option<seq<string>>)
    requires members == None || members == Some([])
    ensures var v := Validator(Type("string"), members, None);
            HasNamedType(v)
            && WriteValidator(v)
               == [StartElement("xs:simpleType"), WriteAttribute("name", "StringValidator"), EndElement]
  {
    var v := Validator(Type("string"), members, None);
    StringTypeName(v);
    PlainValidatorEvents(v);
  }

  /** A union without a restriction wraps an empty anonymous simple type. */
  lemma UnionValidatorEvents(v: Validator)
    requires HasNamedType(v) && HasUnion(v) && v.restriction.None?
    ensures WriteValidator(v)
         == [StartElement("xs:simpleType"), WriteAttribute("name", ValidatorName(v)),
             StartElement("xs:union"), WriteAttribute("memberTypes", Join(v.unionMemberTypes.value, " ")),
             StartElement("xs:simpleType"), EndElement, EndElement,
             EndElement]
  {
    var members := Join(v.unionMemberTypes.value, " ");
    assert InnerEvents(v) == [];
    assert ContentEvents(v)
        == [StartElement("xs:union"), WriteAttribute("memberTypes", members),
            StartElement("xs:simpleType"), EndElement, EndElement];
    assert WriteValidator(v) == ValidatorEvents(v);
  }

  /** Union members are written space-separated. */
  lemma UnionMembersExample()
    ensures var v := Validator(Type("string"), Some(["SomeValidator", "OtherValidator"]), None);
            HasNamedType(v)
            && WriteValidator(v)
               == [StartElement("xs:simpleType"), WriteAttribute("name", "StringValidator"),
                   StartElement("xs:union"), WriteAttribute("memberTypes", "SomeValidator OtherValidator"),
                   StartElement("xs:simpleType"), EndElement, EndElement,
                   EndElement]
  {
    var v := Validator(Type("string"), Some(["SomeValidator", "OtherValidator"]), None);
    StringTypeName(v);
    JoinTwoMembers();
    UnionValidatorEvents(v);
  }

  lemma JoinTwoMembers()
    ensures Join(["SomeValidator", "OtherValidator"], " ") == "SomeValidator OtherValidator"
  {
    JoinCons("SomeValidator", ["OtherValidator"], " ");
    assert ["SomeValidator"] + ["OtherValidator"] == ["SomeValidator", "OtherValidator"];
  }

  // ---------------------------------------------------------------------------
  // ClassWriter: the attribute group

  const BorderFullName := "\"ui/border\".Border"
  const ContentViewFullName := "\"ui/content-view\".ContentView"
  const CustomLayoutViewFullName := "\"ui/core/view\".CustomLayoutView"

  /** `_checkOverridenProperty`: properties that a class redeclares from its base
      and that are therefore left out of its attribute group. */
  function IsOverridden(c: Class, p: Property): (r: bool)
    ensures r ==> c.fullName == BorderFullName || c.fullName == LayoutFullName
    ensures c.fullName == BorderFullName ==> (r <==> p.name in {"borderColor", "borderWidth"})
    ensures c.fullName == LayoutFullName ==>
              (r <==> p.name in {"paddingBottom", "paddingTop", "paddingLeft", "paddingRight"})
  {
    if (p.name == "borderColor" || p.name == "borderWidth") && c.fullName == BorderFullName then
      true
    else if (p.name == "paddingBottom" || p.name == "paddingTop"
             || p.name == "paddingLeft" || p.name == "paddingRight") && c.fullName == LayoutFullName then
      true
    else
      false
  }

  function KeepFn(c: Class): Property -> bool {
    (p: Property) => !IsOverridden(c, p)
  }

  /** The properties the attribute group lists, in declaration order. */
  function Kept(c: Class, props: seq<Property>): seq<Property> {
    Seqs.Filter(props, KeepFn(c))
  }

  /** The factory has a validator for the property's type. */
  predicate Mapped(p: Property) {
    ValidatorKey(p.propertyType.fullName).Some?
  }

  predicate AllMapped(ps: seq<Property>) {
    forall i :: 0 <= i < |ps| ==> Mapped(ps[i])
  }

  /** The first property without a validator: the one whose lookup throws. */
  function FirstUnmapped(ps: seq<Property>): (p: Property)
    requires !AllMapped(ps)
    ensures exists i :: 0 <= i < |ps| && ps[i] == p && !Mapped(p)
                        && forall j :: 0 <= j < i ==> Mapped(ps[j])
    decreases |ps|
  {
    if !Mapped(ps[0]) then ps[0]
    else
      var p := FirstUnmapped(ps[1..]);
      var i :| 0 <= i < |ps[1..]| && ps[1..][i] == p && !Mapped(p)
               && forall j :: 0 <= j < i ==> Mapped(ps[1..][j]);
      assert forall j :: 0 <= j < i + 1 ==> Mapped(ps[j]) by {
        forall j | 0 <= j < i + 1 ensures Mapped(ps[j]) {
          if j > 0 {
            assert ps[j] == ps[1..][j - 1];
          }
        }
      }
      p
  }

  /** The index keys of the properties' validators, in property order. */
  function TypeKeys(ps: seq<Property>): (keys: seq<string>)
    requires AllMapped(ps)
    ensures |keys| == |ps| && forall i :: 0 <= i < |ps| ==> IsValidatorKey(keys[i])
  {
    seq(|ps|, i requires 0 <= i < |ps| => ValidatorKey(ps[i].propertyType.fullName).value)
  }

  /** The schema type of an attribute: the schema name of its type's validator. */
  function TypeName(p: Property): string
    requires Mapped(p)
  {
    KeyName(ValidatorKey(p.propertyType.fullName).value)
  }

  function AttributeElement(name: string, typeName: string): Node {
    Element("xs:attribute", [Attribute("name", name), Attribute("type", typeName)], [])
  }

  function AttributeNode(p: Property): Node
    requires Mapped(p)
  {
    AttributeElement(p.name, TypeName(p))
  }

  function AttributeNodes(ps: seq<Property>): seq<Node>
    requires AllMapped(ps)
  {
    seq(|ps|, i requires 0 <= i < |ps| => AttributeNode(ps[i]))
  }

  /** `_getClassAttributesRefName`: the class name, first letter lower-cased, then
      "Attributes". The source indexes the name's first character, so the name
      must not be empty. */
  function AttributesRefName(c: Class): (r: string)
    requires |c.name| > 0
    ensures EndsWith(r, "Attributes") && |r| == |c.name| + 10
    ensures r[1..|r| - 10] == c.name[1..] && !IsAsciiUpper(r[0])
    ensures r[..|r| - 10] == EnsureStartingLCase(c.name)
  {
    var r := EnsureStartingLCase(c.name) + "Attributes";
    assert r[|r| - 10..] == "Attributes";
    r
  }

  /** The class's attribute group: one attribute per property that is not
      overridden, each typed by its validator's name. */
  function AttributeGroupNode(c: Class): Node
    requires |c.name| > 0 && AllMapped(Kept(c, c.properties))
  {
    Element("xs:attributeGroup", [Attribute("name", AttributesRefName(c))], AttributeNodes(Kept(c, c.properties)))
  }

  /** What a writer leaves behind: the factory after its lookups, and the calls it
      made or the error it raised. */
  datatype Written = Written(factory: Factory, outcome: Result<seq<Event>, Error>)

  function AttributeCallEvents(name: string, typeName: string): seq<Event> {
    [StartElement("xs:attribute"), WriteAttribute("name", name), WriteAttribute("type", typeName), EndElement]
  }

  lemma AttributeElementEvents(name: string, typeName: string)
    ensures Serialize(AttributeElement(name, typeName)) == AttributeCallEvents(name, typeName)
  {
    var attrs := [Attribute("name", name), Attribute("type", typeName)];
    assert AttributeEvents(attrs) == [WriteAttribute("name", name), WriteAttribute("type", typeName)];
  }

  lemma KeptCons(c: Class, props: seq<Property>)
    requires |props| > 0
    ensures Kept(c, props)
         == (if IsOverridden(c, props[0]) then [] else [props[0]]) + Kept(c, props[1..])
  {
  }

  lemma FirstUnmappedCons(p: Property, rest: seq<Property>)
    requires !AllMapped([p] + rest)
    ensures !Mapped(p) ==> FirstUnmapped([p] + rest) == p
    ensures Mapped(p) ==> !AllMapped(rest) && FirstUnmapped([p] + rest) == FirstUnmapped(rest)
  {
    MappedCons(p, rest);
    assert ([p] + rest)[0] == p;
    assert ([p] + rest)[1..] == rest;
  }

  lemma MappedCons(p: Property, rest: seq<Property>)
    ensures AllMapped([p] + rest) <==> Mapped(p) && AllMapped(rest)
  {
    if Mapped(p) && AllMapped(rest) {
      forall i | 0 <= i < |[p] + rest| ensures Mapped(([p] + rest)[i]) {
        if i > 0 {
          assert ([p] + rest)[i] == rest[i - 1];
        }
      }
    }
    if AllMapped([p] + rest) {
      assert ([p] + rest)[0] == p;
      forall i | 0 <= i < |rest| ensures Mapped(rest[i]) {
        assert ([p] + rest)[i + 1] == rest[i];
      }
    }
  }

  lemma NodesCons(p: Property, rest: seq<Property>)
    requires Mapped(p) && AllMapped(rest) && AllMapped([p] + rest)
    ensures AttributeNodes([p] + rest) == [AttributeNode(p)] + AttributeNodes(rest)
  {
    var a := AttributeNodes([p] + rest);
    var b := [AttributeNode(p)] + AttributeNodes(rest);
    assert |a| == |b|;
    forall i | 0 <= i < |a| ensures a[i] == b[i] {
      if i > 0 {
        assert ([p] + rest)[i] == rest[i - 1];
      }
    }
  }

  lemma KeysCons(p: Property, rest: seq<Property>)
    requires Mapped(p) && AllMapped(rest) && AllMapped([p] + rest)
    ensures TypeKeys([p] + rest) == [ValidatorKey(p.propertyType.fullName).value] + TypeKeys(rest)
  {
    var a := TypeKeys([p] + rest);
    var b := [ValidatorKey(p.propertyType.fullName).value] + TypeKeys(rest);
    forall i | 0 <= i < |a| ensures a[i] == b[i] {
      if i > 0 {
        assert ([p] + rest)[i] == rest[i - 1];
      }
    }
  }

  /** A successful lookup adds the validator's key to the registration order the
      way an insertion-ordered map does. */
  lemma LookupOrder(f: Factory, t: Type)
    requires Consistent(f) && ValidatorKey(t.fullName).Some?
    ensures GetValidator(f, t).factory.order == Seqs.Dedup(f.order + [ValidatorKey(t.fullName).value])
  {
    var key := ValidatorKey(t.fullName).value;
    Seqs.DedupOfDistinct(f.order);
    Seqs.DedupSnoc(f.order, key);
    assert key in f.index <==> key in f.order;
  }

  /** The index key of a mapped property's validator. */
  function KeyOf(p: Property): string
    requires Mapped(p)
  {
    ValidatorKey(p.propertyType.fullName).value
  }

  /** The body of `_addClassProperties`' loop for a property that is not
      overridden: look the validator up (which may register it), then write an
      attribute typed by the validator's name. */
  function WritePropertyAttribute(f: Factory, p: Property): (w: Written)
    requires Consistent(f)
    ensures Consistent(w.factory) && Extends(f, w.factory)
    ensures w.outcome.Ok? <==> Mapped(p)
    ensures w.outcome.Err? ==> w.factory == f && w.outcome.error == NoValidator(p.propertyType.fullName)
    ensures w.outcome.Ok? ==>
              && w.outcome.value == Serialize(AttributeNode(p))
              && w.factory.order == Seqs.Dedup(f.order + [KeyOf(p)])
  {
    var l := GetValidator(f, p.propertyType);
    match l.outcome
    case Err(e) => Written(l.factory, Err(e))
    case Ok(v) =>
      BuiltInName(KeyOf(p));
      LookupOrder(f, p.propertyType);
      AttributeElementEvents(p.name, TypeName(p));
      Written(l.factory, Ok(AttributeCallEvents(p.name, ValidatorName(v))))
  }

  /** `_addClassProperties`' loop: each property that is not overridden gets an
      attribute, in order; the first one without a validator raises the factory's
      error. */
  function WriteProperties(f: Factory, c: Class, props: seq<Property>): (w: Written)
    requires Consistent(f)
    ensures Consistent(w.factory) && Extends(f, w.factory)
    ensures w.outcome.Ok? <==> AllMapped(Kept(c, props))
    ensures w.outcome.Err? ==>
              w.outcome.error.NoValidator? && ValidatorKey(w.outcome.error.fullName).None?
    ensures w.outcome.Err? ==>
              w.outcome.error == NoValidator(FirstUnmapped(Kept(c, props)).propertyType.fullName)
    ensures w.outcome.Ok? ==>
              && w.outcome.value == SerializeAll(AttributeNodes(Kept(c, props)))
              && w.factory.order == Seqs.Dedup(f.order + TypeKeys(Kept(c, props)))
    decreases |props|, 1
  {
    if |props| == 0 then
      Seqs.DedupOfDistinct(f.order);
      assert Kept(c, props) == [];
      assert TypeKeys([]) == [];
      assert f.order + [] == f.order;
      assert SerializeAll(AttributeNodes([])) == [];
      Written(f, Ok([]))
    else if IsOverridden(c, props[0]) then
      KeptCons(c, props);
      assert Kept(c, props) == Kept(c, props[1..]);
      WriteProperties(f, c, props[1..])
    else
      WriteAttributeThenRest(f, c, props)
  }

  /** One turn of the loop for a property that is not overridden: its attribute,
      then the rest of the loop on the factory the lookup left behind. */
  function WriteAttributeThenRest(f: Factory, c: Class, props: seq<Property>): (w: Written)
    requires Consistent(f) && |props| > 0 && !IsOverridden(c, props[0])
    ensures Consistent(w.factory) && Extends(f, w.factory)
    ensures w.outcome.Ok? <==> AllMapped(Kept(c, props))
    ensures w.outcome.Err? ==>
              w.outcome.error.NoValidator? && ValidatorKey(w.outcome.error.fullName).None?
    ensures w.outcome.Err? ==>
              w.outcome.error == NoValidator(FirstUnmapped(Kept(c, props)).propertyType.fullName)
    ensures w.outcome.Ok? ==>
              && w.outcome.value == SerializeAll(AttributeNodes(Kept(c, props)))
              && w.factory.order == Seqs.Dedup(f.order + TypeKeys(Kept(c, props)))
    decreases |props|, 0
  {
    var p := props[0];
    KeptCons(c, props);
    var head := WritePropertyAttribute(f, p);
    MappedCons(p, Kept(c, props[1..]));
    if head.outcome.Err? then
      FirstUnmappedCons(p, Kept(c, props[1..]));
      head
    else
      var rest := WriteProperties(head.factory, c, props[1..]);
      ExtendsTransitive(f, head.factory, rest.factory);
      if rest.outcome.Err? then
        FirstUnmappedCons(p, Kept(c, props[1..]));
        rest
      else
        PropertyStep(c, props, f.order, head.factory.order, head.outcome.value,
                     rest.outcome.value, rest.factory.order);
        Written(rest.factory, Ok(head.outcome.value + rest.outcome.value))
  }

  lemma OrderStep(order: seq<string>, key: string, keys: seq<string>)
    ensures Seqs.Dedup(Seqs.Dedup(order + [key]) + keys) == Seqs.Dedup(order + ([key] + keys))
  {
    assert order + [key] + keys == order + ([key] + keys);
    Seqs.DedupDedup(order + [key], keys);
  }

  /** One step of the loop over a kept property: its attribute followed by the
      remaining kept properties' attributes are all kept properties' attributes,
      and its key followed by theirs gives the final registration order. */
  lemma PropertyStep(c: Class, props: seq<Property>,
                     order: seq<string>, lookupOrder: seq<string>, headEvents: seq<Event>,
                     restEvents: seq<Event>, restOrder: seq<string>)
    requires |props| > 0 && !IsOverridden(c, props[0]) && Mapped(props[0])
    requires AllMapped(Kept(c, props[1..]))
    requires headEvents == Serialize(AttributeNode(props[0]))
    requires restEvents == SerializeAll(AttributeNodes(Kept(c, props[1..])))
    requires lookupOrder == Seqs.Dedup(order + [KeyOf(props[0])])
    requires restOrder == Seqs.Dedup(lookupOrder + TypeKeys(Kept(c, props[1..])))
    ensures AllMapped(Kept(c, props))
    ensures headEvents + restEvents == SerializeAll(AttributeNodes(Kept(c, props)))
    ensures restOrder == Seqs.Dedup(order + TypeKeys(Kept(c, props)))
  {
    var p := props[0];
    var kept := Kept(c, props[1..]);
    KeptCons(c, props);
    assert Kept(c, props) == [p] + kept;
    MappedCons(p, kept);
    NodesCons(p, kept);
    KeysCons(p, kept);
    assert AttributeNodes([p] + kept)[0] == AttributeNode(p);
    assert AttributeNodes([p] + kept)[1..] == AttributeNodes(kept);
    OrderStep(order, KeyOf(p), TypeKeys(kept));
  }

  // ---------------------------------------------------------------------------
  // ClassWriter: the complex type and the element

  /** The classes whose instances hold child components. */
  predicate HasContent(c: Class) {
    c.fullName == ContentViewFullName || c.fullName == LayoutFullName || c.fullName == CustomLayoutViewFullName
  }

  /** A content view holds one child; layouts hold any number. */
  function MaxOccurs(c: Class): string {
    if c.fullName == ContentViewFullName then "1" else "unbounded"
  }

  /** What writing a class needs: a name whose first character can be indexed, and,
      unless it is the view root, a first base class to extend. */
  predicate Writable(c: Class) {
    |c.name| > 0 && (c.fullName != ViewFullName ==> |c.baseClassNames| > 0)
  }

  function GroupRefNode(c: Class): Node
    requires |c.name| > 0
  {
    Element("xs:attributeGroup", [Attribute("ref", AttributesRefName(c))], [])
  }

  /** The reference to the component group that content holders add. */
  function ContentNodes(c: Class): seq<Node> {
    if HasContent(c) then
      [Element("xs:sequence", [],
               [Element("xs:group", [Attribute("ref", "UIComponents"), Attribute("maxOccurs", MaxOccurs(c))], [])])]
    else []
  }

  /** The class's complex type: the view root refers to its attribute group
      directly; every other class extends its first base class with its content
      group (if it holds content) and its attribute group. */
  function ComplexTypeNode(c: Class): Node
    requires Writable(c)
  {
    Element("xs:complexType", [Attribute("name", c.name)],
      if c.fullName == ViewFullName then [GroupRefNode(c)]
      else
        [Element("xs:complexContent", [],
                 [Element("xs:extension", [Attribute("base", Name(c.baseClassNames[0]))],
                          ContentNodes(c) + [GroupRefNode(c)])])])
  }

  /** An element named after the class and typed by it. */
  function ElementNode(c: Class): Node {
    Element("xs:element", [Attribute("name", c.name), Attribute("type", c.name)], [])
  }

  /** Everything one class contributes to the schema, in writing order. */
  function ClassNodes(c: Class): seq<Node>
    requires Writable(c) && AllMapped(Kept(c, c.properties))
  {
    [AttributeGroupNode(c), ComplexTypeNode(c), ElementNode(c)]
  }

  /** `_addClassAttributeGroup`. */
  function GroupRefEvents(c: Class): seq<Event>
    requires |c.name| > 0
  {
    [StartElement("xs:attributeGroup"), WriteAttribute("ref", AttributesRefName(c)), EndElement]
  }

  function ContentEventsOf(c: Class): seq<Event> {
    if HasContent(c) then
      [StartElement("xs:sequence"), StartElement("xs:group"),
       WriteAttribute("ref", "UIComponents"), WriteAttribute("maxOccurs", MaxOccurs(c)),
       EndElement, EndElement]
    else []
  }

  /** The calls between the complex type's name and its end. */
  function ComplexBodyEvents(c: Class): seq<Event>
    requires Writable(c)
  {
    if c.fullName != ViewFullName then
      [StartElement("xs:complexContent")]
      + ([StartElement("xs:extension"), WriteAttribute("base", Name(c.baseClassNames[0]))]
         + (ContentEventsOf(c) + GroupRefEvents(c))
         + [EndElement])
      + [EndElement]
    else GroupRefEvents(c)
  }

  /** The calls of `_addClassType` after the attribute group. */
  function ComplexTypeEvents(c: Class): seq<Event>
    requires Writable(c)
  {
    [StartElement("xs:complexType"), WriteAttribute("name", c.name)] + ComplexBodyEvents(c) + [EndElement]
  }

  /** `_addClassElement`. */
  function ElementEvents(c: Class): seq<Event> {
    [StartElement("xs:element"), WriteAttribute("name", c.name), WriteAttribute("type", c.name), EndElement]
  }

  lemma GroupRefMatch(c: Class)
    requires |c.name| > 0
    ensures Serialize(GroupRefNode(c)) == GroupRefEvents(c)
  {
    assert AttributeEvents([Attribute("ref", AttributesRefName(c))])
        == [WriteAttribute("ref", AttributesRefName(c))];
  }

  lemma ContentMatch(c: Class)
    ensures SerializeAll(ContentNodes(c)) == ContentEventsOf(c)
  {
    if HasContent(c) {
      var group := Element("xs:group", [Attribute("ref", "UIComponents"), Attribute("maxOccurs", MaxOccurs(c))], []);
      var sequence := Element("xs:sequence", [], [group]);
      assert AttributeEvents(group.attributes)
          == [WriteAttribute("ref", "UIComponents"), WriteAttribute("maxOccurs", MaxOccurs(c))];
      SerializeAllOne(group);
      SerializeAllOne(sequence);
    }
  }

  lemma ExtensionMatch(c: Class)
    requires Writable(c) && c.fullName != ViewFullName
    ensures SerializeAll(ComplexTypeNode(c).children) == ComplexBodyEvents(c)
  {
    var base := Name(c.baseClassNames[0]);
    var children := ContentNodes(c) + [GroupRefNode(c)];
    var extension := Element("xs:extension", [Attribute("base", base)], children);
    var baseEvents := [WriteAttribute("base", base)];
    var childEvents := ContentEventsOf(c) + GroupRefEvents(c);
    ContentMatch(c);
    GroupRefMatch(c);
    SerializeAllOne(GroupRefNode(c));
    SerializeAllAppend(ContentNodes(c), [GroupRefNode(c)]);
    assert AttributeEvents([Attribute("base", base)]) == baseEvents;
    assert AttributeEvents([]) == [];
    SerializeAllSingle("xs:extension", [Attribute("base", base)], children, baseEvents, childEvents);
    var extensionEvents := [StartElement("xs:extension")] + baseEvents + childEvents + [EndElement];
    SerializeAllSingle("xs:complexContent", [], [extension], [], extensionEvents);
  }

  lemma ComplexTypeMatch(c: Class)
    requires Writable(c)
    ensures Serialize(ComplexTypeNode(c)) == ComplexTypeEvents(c)
  {
    if c.fullName == ViewFullName {
      GroupRefMatch(c);
      SerializeAllOne(GroupRefNode(c));
    } else {
      ExtensionMatch(c);
    }
    assert AttributeEvents([Attribute("name", c.name)]) == [WriteAttribute("name", c.name)];
  }

  lemma ElementMatch(c: Class)
    ensures Serialize(ElementNode(c)) == ElementEvents(c)
  {
    assert AttributeEvents(ElementNode(c).attributes)
        == [WriteAttribute("name", c.name), WriteAttribute("type", c.name)];
  }

  lemma AttributeGroupMatch(c: Class, propertyEvents: seq<Event>)
    requires |c.name| > 0 && AllMapped(Kept(c, c.properties))
    requires propertyEvents == SerializeAll(AttributeNodes(Kept(c, c.properties)))
    ensures Serialize(AttributeGroupNode(c))
         == [StartElement("xs:attributeGroup"), WriteAttribute("name", AttributesRefName(c))]
            + propertyEvents + [EndElement]
  {
    assert AttributeEvents([Attribute("name", AttributesRefName(c))])
        == [WriteAttribute("name", AttributesRefName(c))];
  }

  lemma ClassNodesMatch(c: Class, propertyEvents: seq<Event>)
    requires Writable(c) && AllMapped(Kept(c, c.properties))
    requires propertyEvents == SerializeAll(AttributeNodes(Kept(c, c.properties)))
    ensures SerializeAll(ClassNodes(c))
         == [StartElement("xs:attributeGroup"), WriteAttribute("name", AttributesRefName(c))]
            + propertyEvents + [EndElement]
            + ComplexTypeEvents(c) + ElementEvents(c)
  {
    AttributeGroupMatch(c, propertyEvents);
    ComplexTypeMatch(c);
    ElementMatch(c);
    SerializeAllOne(ElementNode(c));
    assert ClassNodes(c)[1..] == [ComplexTypeNode(c), ElementNode(c)];
    assert ClassNodes(c)[1..][1..] == [ElementNode(c)];
  }

  /** `ClassWriter.write`: the attribute group (whose lookups may register
      validators), then the complex type, then the element. It fails exactly when
      a property that is not overridden has a type without a validator. */
  function WriteClass(f: Factory, c: Class): (w: Written)
    requires Consistent(f) && Writable(c)
    ensures Consistent(w.factory) && Extends(f, w.factory)
    ensures w.outcome.Ok? <==> AllMapped(Kept(c, c.properties))
    ensures w.outcome.Err? ==>
              w.outcome.error.NoValidator? && ValidatorKey(w.outcome.error.fullName).None?
    ensures w.outcome.Err? ==>
              w.outcome.error == NoValidator(FirstUnmapped(Kept(c, c.properties)).propertyType.fullName)
    ensures w.outcome.Ok? ==>
              && w.outcome.value == SerializeAll(ClassNodes(c))
              && Balanced(w.outcome.value)
              && w.factory.order == Seqs.Dedup(f.order + TypeKeys(Kept(c, c.properties)))
  {
    var props := WriteProperties(f, c, c.properties);
    if props.outcome.Err? then
      props
    else
      ClassNodesMatch(c, props.outcome.value);
      SerializeAllBalanced(ClassNodes(c));
      Written(props.factory,
              Ok([StartElement("xs:attributeGroup"), WriteAttribute("name", AttributesRefName(c))]
                 + props.outcome.value + [EndElement]
                 + ComplexTypeEvents(c) + ElementEvents(c)))
  }

  // ---------------------------------------------------------------------------
  // JsonXsdWriter

  predicate AllWritable(cs: seq<Class>) {
    forall i :: 0 <= i < |cs| ==> Writable(cs[i])
  }

  /** Every property that gets an attribute has a validator. */
  predicate ClassesMapped(cs: seq<Class>) {
    forall i :: 0 <= i < |cs| ==> AllMapped(Kept(cs[i], cs[i].properties))
  }

  /** What the classes contribute to the schema, class after class. */
  function ClassesNodes(cs: seq<Class>): seq<Node>
    requires AllWritable(cs) && ClassesMapped(cs)
    decreases |cs|
  {
    if |cs| == 0 then [] else ClassNodes(cs[0]) + ClassesNodes(cs[1..])
  }

  /** The index keys of the validators the classes' attributes use, in use order
      (repetitions included). */
  function UsedKeys(cs: seq<Class>): (keys: seq<string>)
    requires ClassesMapped(cs)
    ensures forall i :: 0 <= i < |keys| ==> IsValidatorKey(keys[i])
    decreases |cs|
  {
    if |cs| == 0 then [] else TypeKeys(Kept(cs[0], cs[0].properties)) + UsedKeys(cs[1..])
  }

  lemma ClassesStep(order: seq<string>, headKeys: seq<string>, restKeys: seq<string>)
    ensures Seqs.Dedup(Seqs.Dedup(order + headKeys) + restKeys) == Seqs.Dedup(order + (headKeys + restKeys))
  {
    assert order + headKeys + restKeys == order + (headKeys + restKeys);
    Seqs.DedupDedup(order + headKeys, restKeys);
  }

  /** Every property of `c` that gets an attribute has a validator. */
  predicate ClassMapped(c: Class) {
    AllMapped(Kept(c, c.properties))
  }

  /** The index of the first class with a property that has no validator. */
  function FirstUnmappedClass(cs: seq<Class>): (i: nat)
    requires !ClassesMapped(cs)
    ensures i < |cs| && !ClassMapped(cs[i])
    ensures forall j :: 0 <= j < i ==> ClassMapped(cs[j])
    decreases |cs|
  {
    if !ClassMapped(cs[0]) then 0
    else
      ClassesCons(cs);
      var i := FirstUnmappedClass(cs[1..]);
      FirstUnmappedShift(cs, i);
      i + 1
  }

  lemma FirstUnmappedShift(cs: seq<Class>, i: nat)
    requires 0 < |cs| && i < |cs| - 1 && ClassMapped(cs[0])
    requires !ClassMapped(cs[1..][i]) && forall j :: 0 <= j < i ==> ClassMapped(cs[1..][j])
    ensures !ClassMapped(cs[i + 1]) && forall j :: 0 <= j < i + 1 ==> ClassMapped(cs[j])
  {
    assert cs[i + 1] == cs[1..][i];
    forall j | 0 <= j < i + 1 ensures ClassMapped(cs[j]) {
      if j > 0 {
        assert cs[j] == cs[1..][j - 1];
      }
    }
  }

  /** The first property without a validator in the first class that has one:
      the lookup that throws when the classes are written in order. */
  function FirstUnmappedIn(cs: seq<Class>): (p: Property)
    requires !ClassesMapped(cs)
  {
    var i := FirstUnmappedClass(cs);
    FirstUnmapped(Kept(cs[i], cs[i].properties))
  }

  lemma FirstUnmappedInCons(cs: seq<Class>)
    requires |cs| > 0 && !ClassesMapped(cs)
    ensures !ClassMapped(cs[0]) ==> FirstUnmappedIn(cs) == FirstUnmapped(Kept(cs[0], cs[0].properties))
    ensures ClassMapped(cs[0]) ==> !ClassesMapped(cs[1..]) && FirstUnmappedIn(cs) == FirstUnmappedIn(cs[1..])
  {
    ClassesCons(cs);
    if ClassMapped(cs[0]) {
      assert cs[FirstUnmappedClass(cs[1..]) + 1] == cs[1..][FirstUnmappedClass(cs[1..])];
    }
  }

  lemma ClassesCons(cs: seq<Class>)
    requires |cs| > 0
    ensures AllWritable(cs) ==> Writable(cs[0]) && AllWritable(cs[1..])
    ensures ClassesMapped(cs) <==> AllMapped(Kept(cs[0], cs[0].properties)) && ClassesMapped(cs[1..])
  {
    assert forall i :: 0 <= i < |cs| - 1 ==> cs[1..][i] == cs[i + 1];
    if AllMapped(Kept(cs[0], cs[0].properties)) && ClassesMapped(cs[1..]) {
      forall i | 0 <= i < |cs| ensures AllMapped(Kept(cs[i], cs[i].properties)) {
        if i > 0 {
          assert cs[i] == cs[1..][i - 1];
        }
      }
    }
  }

  /** `processClasses`: every class in turn, the factory threaded through. */
  function WriteClasses(f: Factory, cs: seq<Class>): (w: Written)
    requires Consistent(f) && AllWritable(cs)
    ensures Consistent(w.factory) && Extends(f, w.factory)
    ensures w.outcome.Ok? <==> ClassesMapped(cs)
    ensures w.outcome.Err? ==>
              w.outcome.error.NoValidator? && ValidatorKey(w.outcome.error.fullName).None?
    ensures w.outcome.Err? ==>
              w.outcome.error == NoValidator(FirstUnmappedIn(cs).propertyType.fullName)
    ensures w.outcome.Ok? ==>
              && w.outcome.value == SerializeAll(ClassesNodes(cs))
              && w.factory.order == Seqs.Dedup(f.order + UsedKeys(cs))
    decreases |cs|, 1
  {
    if |cs| == 0 then
      Seqs.DedupOfDistinct(f.order);
      assert f.order + [] == f.order;
      Written(f, Ok([]))
    else
      WriteClassThenRest(f, cs)
  }

  /** One turn of the loop: the first class, then the rest of the loop on the
      factory its lookups left behind. */
  function WriteClassThenRest(f: Factory, cs: seq<Class>): (w: Written)
    requires Consistent(f) && AllWritable(cs) && |cs| > 0
    ensures Consistent(w.factory) && Extends(f, w.factory)
    ensures w.outcome.Ok? <==> ClassesMapped(cs)
    ensures w.outcome.Err? ==>
              w.outcome.error.NoValidator? && ValidatorKey(w.outcome.error.fullName).None?
    ensures w.outcome.Err? ==>
              w.outcome.error == NoValidator(FirstUnmappedIn(cs).propertyType.fullName)
    ensures w.outcome.Ok? ==>
              && w.outcome.value == SerializeAll(ClassesNodes(cs))
              && w.factory.order == Seqs.Dedup(f.order + UsedKeys(cs))
    decreases |cs|, 0
  {
    ClassesCons(cs);
    var head := WriteClass(f, cs[0]);
    if head.outcome.Err? then
      FirstUnmappedInCons(cs);
      head
    else
      var rest := WriteClasses(head.factory, cs[1..]);
      ExtendsTransitive(f, head.factory, rest.factory);
      if rest.outcome.Err? then
        FirstUnmappedInCons(cs);
        rest
      else
        ClassStep(cs, f.order, head.outcome.value, head.factory.order,
                  rest.outcome.value, rest.factory.order);
        Written(rest.factory, Ok(head.outcome.value + rest.outcome.value))
  }

  /** One turn of `processClasses`' loop: the first class's elements followed by
      the rest's are all the classes' elements, and its keys followed by theirs
      give the final registration order. */
  lemma ClassStep(cs: seq<Class>, order: seq<string>, headEvents: seq<Event>, headOrder: seq<string>,
                  restEvents: seq<Event>, restOrder: seq<string>)
    requires |cs| > 0 && AllWritable(cs)
    requires AllMapped(Kept(cs[0], cs[0].properties)) && ClassesMapped(cs[1..])
    requires headEvents == SerializeAll(ClassNodes(cs[0]))
    requires headOrder == Seqs.Dedup(order + TypeKeys(Kept(cs[0], cs[0].properties)))
    requires restEvents == SerializeAll(ClassesNodes(cs[1..]))
    requires restOrder == Seqs.Dedup(headOrder + UsedKeys(cs[1..]))
    ensures ClassesMapped(cs)
    ensures headEvents + restEvents == SerializeAll(ClassesNodes(cs))
    ensures restOrder == Seqs.Dedup(order + UsedKeys(cs))
  {
    ClassesCons(cs);
    SerializeAllAppend(ClassNodes(cs[0]), ClassesNodes(cs[1..]));
    ClassesStep(order, TypeKeys(Kept(cs[0], cs[0].properties)), UsedKeys(cs[1..]));
  }

  /** The simple types of the validators, in order. */
  function ValidatorNodes(vs: seq<Validator>): (ns: seq<Node>)
    requires forall i :: 0 <= i < |vs| ==> HasNamedType(vs[i])
    ensures |ns| == |vs| && forall i :: 0 <= i < |vs| ==> ns[i] == ValidatorNode(vs[i])
  {
    seq(|vs|, i requires 0 <= i < |vs| => ValidatorNode(vs[i]))
  }

  lemma ValidatorNodesCons(vs: seq<Validator>)
    requires |vs| > 0 && forall i :: 0 <= i < |vs| ==> HasNamedType(vs[i])
    ensures SerializeAll(ValidatorNodes(vs)) == Serialize(ValidatorNode(vs[0])) + SerializeAll(ValidatorNodes(vs[1..]))
  {
    var ns := ValidatorNodes(vs);
    assert ns[1..] == ValidatorNodes(vs[1..]);
  }

  /** `writeValidators`: each validator's simple type in turn. */
  function WriteValidators(vs: seq<Validator>): (es: seq<Event>)
    requires forall i :: 0 <= i < |vs| ==> HasNamedType(vs[i])
    ensures es == SerializeAll(ValidatorNodes(vs))
    decreases |vs|
  {
    if |vs| == 0 then []
    else
      ValidatorNodesCons(vs);
      WriteValidator(vs[0]) + WriteValidators(vs[1..])
  }

  /** The simple type of the validator under an index key. */
  function KeyNode(key: string): Node
    requires IsValidatorKey(key)
  {
    BuiltInName(key);
    ValidatorNode(BuiltIn(key))
  }

  function KeyNodes(keys: seq<string>): seq<Node>
    requires forall i :: 0 <= i < |keys| ==> IsValidatorKey(keys[i])
  {
    seq(|keys|, i requires 0 <= i < |keys| => KeyNode(keys[i]))
  }

  /** The component group: a choice of one element per class, in tree order. */
  function UIComponentsNode(cs: seq<Class>): Node {
    Element("xs:group", [Attribute("name", "UIComponents")],
            [Element("xs:choice", [], seq(|cs|, i requires 0 <= i < |cs| => ElementNode(cs[i])))])
  }

  function ChoiceEvents(cs: seq<Class>): seq<Event>
    decreases |cs|
  {
    if |cs| == 0 then [] else ElementEvents(cs[0]) + ChoiceEvents(cs[1..])
  }

  lemma {:induction false} ChoiceMatch(cs: seq<Class>)
    ensures ChoiceEvents(cs) == SerializeAll(seq(|cs|, i requires 0 <= i < |cs| => ElementNode(cs[i])))
    decreases |cs|
  {
    if |cs| > 0 {
      var ns := seq(|cs|, i requires 0 <= i < |cs| => ElementNode(cs[i]));
      assert ns[1..] == seq(|cs| - 1, i requires 0 <= i < |cs| - 1 => ElementNode(cs[1..][i]));
      ElementMatch(cs[0]);
      ChoiceMatch(cs[1..]);
    }
  }

  /** `writeUIComponents`. */
  function WriteUIComponents(cs: seq<Class>): (es: seq<Event>)
    ensures es == Serialize(UIComponentsNode(cs)) && Balanced(es)
  {
    var choice := Element("xs:choice", [], seq(|cs|, i requires 0 <= i < |cs| => ElementNode(cs[i])));
    ChoiceMatch(cs);
    SerializeAllOne(choice);
    assert AttributeEvents([Attribute("name", "UIComponents")]) == [WriteAttribute("name", "UIComponents")];
    SerializeBalanced(UIComponentsNode(cs));
    [StartElement("xs:group"), WriteAttribute("name", "UIComponents")]
    + ([StartElement("xs:choice")] + ChoiceEvents(cs) + [EndElement])
    + [EndElement]
  }

  /** The whole schema: the root element with its attributes, holding every
      class's contribution, then the simple types of the validators under `keys`
      in that order, then the component group. */
  function SchemaNode(rootName: string, rootAttributes: seq<Attribute>, cs: seq<Class>, keys: seq<string>): Node
    requires AllWritable(cs) && ClassesMapped(cs)
    requires forall i :: 0 <= i < |keys| ==> IsValidatorKey(keys[i])
  {
    Element(rootName, rootAttributes, ClassesNodes(cs) + KeyNodes(keys) + [UIComponentsNode(cs)])
  }

  lemma RegisteredNodes(f: Factory)
    requires Consistent(f)
    ensures var vs := GetRegisteredValidators(f);
            && (forall i :: 0 <= i < |vs| ==> HasNamedType(vs[i]))
            && (forall i :: 0 <= i < |f.order| ==> IsValidatorKey(f.order[i]))
            && ValidatorNodes(vs) == KeyNodes(f.order)
  {
    var vs := GetRegisteredValidators(f);
    forall i | 0 <= i < |vs| ensures HasNamedType(vs[i]) {
      BuiltInName(f.order[i]);
    }
  }

  lemma ThreePartElement(name: string, attrs: seq<Attribute>, a: seq<Node>, b: seq<Node>, c: Node)
    ensures [StartElement(name)] + AttributeEvents(attrs) + SerializeAll(a) + SerializeAll(b) + Serialize(c) + [EndElement]
         == Serialize(Element(name, attrs, a + b + [c]))
  {
    var ea, eb, ec := SerializeAll(a), SerializeAll(b), Serialize(c);
    var open := [StartElement(name)] + AttributeEvents(attrs);
    SerializeAllAppend(a + b, [c]);
    SerializeAllAppend(a, b);
    SerializeAllOne(c);
    assert SerializeAll(a + b + [c]) == ea + eb + ec;
    assert Serialize(Element(name, attrs, a + b + [c])) == open + (ea + eb + ec) + [EndElement];
    Seqs.Regroup(open, ea, eb, ec, [EndElement]);
  }

  lemma SchemaEvents(rootName: string, rootAttributes: seq<Attribute>, cs: seq<Class>, keys: seq<string>,
                     classEvents: seq<Event>, validatorEvents: seq<Event>, componentEvents: seq<Event>)
    requires AllWritable(cs) && ClassesMapped(cs)
    requires forall i :: 0 <= i < |keys| ==> IsValidatorKey(keys[i])
    requires classEvents == SerializeAll(ClassesNodes(cs))
    requires validatorEvents == SerializeAll(KeyNodes(keys))
    requires componentEvents == Serialize(UIComponentsNode(cs))
    ensures [StartElement(rootName)] + AttributeEvents(rootAttributes)
            + classEvents + validatorEvents + componentEvents + [EndElement]
         == Serialize(SchemaNode(rootName, rootAttributes, cs, keys))
  {
    ThreePartElement(rootName, rootAttributes, ClassesNodes(cs), KeyNodes(keys), UIComponentsNode(cs));
  }

  /** `JsonXsdWriter.parse` on a writer whose factory is `f`: open the root and
      write its attributes, write every class, then the simple type of every
      validator registered so far (in registration order), then the component
      group, and let `endDocument` close the root. The result is the schema tree
      in which the validators are those of `f` followed by those the attributes
      used, each once, in order of first use. */
  function Parse(f: Factory, rootName: string, tree: Tree, rootAttributes: seq<Attribute>): (w: Written)
    requires Consistent(f) && AllWritable(tree.classes)
    ensures Consistent(w.factory) && Extends(f, w.factory)
    ensures w.outcome.Ok? <==> ClassesMapped(tree.classes)
    ensures w.outcome.Err? ==>
              w.outcome.error.NoValidator? && ValidatorKey(w.outcome.error.fullName).None?
    ensures w.outcome.Err? ==>
              w.outcome.error == NoValidator(FirstUnmappedIn(tree.classes).propertyType.fullName)
    ensures w.outcome.Ok? ==>
              var keys := Seqs.Dedup(f.order + UsedKeys(tree.classes));
              && w.factory.order == keys
              && w.outcome.value == Serialize(SchemaNode(rootName, rootAttributes, tree.classes, keys))
              && Balanced(w.outcome.value)
  {
    var written := WriteClasses(f, tree.classes);
    if written.outcome.Err? then
      written
    else
      var vs := GetRegisteredValidators(written.factory);
      RegisteredNodes(written.factory);
      var body := [StartElement(rootName)] + AttributeEvents(rootAttributes)
                  + written.outcome.value + WriteValidators(vs) + WriteUIComponents(tree.classes);
      SchemaEvents(rootName, rootAttributes, tree.classes, written.factory.order,
                   written.outcome.value, WriteValidators(vs), WriteUIComponents(tree.classes));
      SerializeBalanced(SchemaNode(rootName, rootAttributes, tree.classes, written.factory.order));
      EndDocumentClosesLast(body);
      Written(written.factory, Ok(EndDocument(body)))
  }

  /** A writer's schema lists the binding validator's simple type first among
      the validators, and every validator once, whatever the classes use. */
  lemma {:induction false} FreshParseBindingFirst(rootName: string, tree: Tree, rootAttributes: seq<Attribute>)
    requires AllWritable(tree.classes)
    ensures var w := Parse(NewFactory(), rootName, tree, rootAttributes);
            && Valid(w.factory)
            && Seqs.Distinct(w.factory.order)
            && GetRegisteredValidators(w.factory)[0] == BindingValidator
  {
    var f := NewFactory();
    var g := Parse(f, rootName, tree, rootAttributes).factory;
    assert g.order[0] == g.order[..|f.order|][0];
  }

  lemma ClassOneName()
    ensures AttributesRefName(Class("Class1Name", "Class1FullName", "Class1Comments",
                                    [Type("Class1BaseClass1")], [])) == "class1NameAttributes"
  {
    assert LowerChar('C') == 'c';
    assert EnsureStartingLCase("Class1Name") == "class1Name";
  }

  /** A class with one `string` property gets the attribute group
      `class1NameAttributes` listing that property typed `StringValidator`, a
      complex type and an element both named after the class. */
  lemma SimpleClassExample()
    ensures var c := Class("Class1Name", "Class1FullName", "Class1Comments",
                           [Type("Class1BaseClass1")], [Property("Prop1Name", Type("string"))]);
            && Writable(c) && AllMapped(Kept(c, c.properties))
            && ClassNodes(c)[0] == Element("xs:attributeGroup", [Attribute("name", "class1NameAttributes")],
                                           [AttributeElement("Prop1Name", "StringValidator")])
            && ClassNodes(c)[1].name == "xs:complexType" && ClassNodes(c)[1].attributes == [Attribute("name", "Class1Name")]
            && ClassNodes(c)[2] == Element("xs:element", [Attribute("name", "Class1Name"), Attribute("type", "Class1Name")], [])
  {
    var c := Class("Class1Name", "Class1FullName", "Class1Comments",
                   [Type("Class1BaseClass1")], [Property("Prop1Name", Type("string"))]);
    var p := Property("Prop1Name", Type("string"));
    assert !IsOverridden(c, p);
    Seqs.FilterKeepsAll([p], KeepFn(c));
    assert Kept(c, c.properties) == [p];
    StringKeyOfString();
    assert TypeName(p) == "StringValidator";
    assert AttributeNodes([p]) == [AttributeElement("Prop1Name", "StringValidator")];
    ClassOneName();
    assert AttributesRefName(c) == AttributesRefName(c.(properties := []));
  }
}
