/**
 * The decisions lib/file-walker.ts takes while it turns compiler declarations
 * into classes: which declaration a type resolves to, which label a property's
 * type gets, which properties survive and under what name, how the base-class
 * chain is walked, and how the filters and the tree are composed. The compiler
 * itself is replaced by the declarations it would report.
 */
module FileWalker {
  import opened Wrappers
  import opened Errors
  import opened Text
  import opened LangElements
  import Seqs

  // ---------------------------------------------------------------------------
  // Declarations, as the compiler reports them

  datatype DeclKind = ClassDeclaration | InterfaceDeclaration | OtherDeclaration

  datatype HeritageToken = ExtendsKeyword | ImplementsKeyword

  /** A declaration of a symbol: its kind, its short name, its fully-qualified
      name, and its heritage clauses in source order. */
  datatype Decl = Decl(kind: DeclKind, name: string, fullName: string, heritage: seq<HeritageClause>)

  /** An `extends` or `implements` clause; the grammar gives it at least one type. */
  datatype HeritageClause = HeritageClause(token: HeritageToken, first: TypeNode, others: seq<TypeNode>)

  /** The syntactic shape of a type annotation: a keyword, a reference through a
      qualified name (with the text of its left part), or anything else. */
  datatype TypeSyntax =
    | StringKeyword
    | NumberKeyword
    | BooleanKeyword
    | QualifiedReference(left: string)
    | OtherSyntax

  /** A type annotation: the declarations of the symbol its type resolves to
      (none when the type has no symbol), its shape, and its source text. */
  datatype TypeNode = TypeNode(declarations: seq<Decl>, syntax: TypeSyntax, text: string)

  /** A class member: a property declaration with its annotation, or anything else. */
  datatype Member =
    | PropertyDeclaration(name: string, declaredType: TypeNode)
    | OtherMember

  /** A class declaration found in a source file, with its leading comments and its members. */
  datatype ClassSource = ClassSource(decl: Decl, comments: string, members: seq<Member>)

  // ---------------------------------------------------------------------------
  // `_getClassDeclaration`

  predicate IsClassOrInterface(d: Decl) {
    d.kind == ClassDeclaration || d.kind == InterfaceDeclaration
  }

  /** `_getClassOrInterfaceDeclarations`: the class and interface declarations, in order. */
  function ClassOrInterfaceDeclarations(ds: seq<Decl>): (r: seq<Decl>)
    ensures forall i :: 0 <= i < |r| ==> IsClassOrInterface(r[i]) && r[i] in ds
    ensures forall d :: d in ds && IsClassOrInterface(d) ==> d in r
    ensures forall d {:trigger multiset(r)[d]} :: multiset(r)[d] == if IsClassOrInterface(d) then multiset(ds)[d] else 0
    ensures Seqs.IsSubsequence(r, ds)
  {
    Seqs.FilterIsSubsequence(ds, IsClassOrInterface);
    Seqs.Filter(ds, IsClassOrInterface)
  }

  /** The class and interface declarations a type annotation resolves to. */
  function Candidates(t: TypeNode): seq<Decl> {
    ClassOrInterfaceDeclarations(t.declarations)
  }

  /** `_getClassDeclaration`. Several candidates are an error, except that a
      first candidate named `Date` gives way to the second one, whatever follows. */
  function ResolveDeclaration(t: TypeNode): (r: Result<Option<Decl>, Error>)
    ensures var c := Candidates(t);
            && (r.Err? <==> |c| > 1 && c[0].name != "Date")
            && (r.Err? ==> r.error == MultipleDeclarations)
            && (r == Ok(None) <==> |c| == 0)
            && (r.Ok? && r.value.Some? ==>
                  && IsClassOrInterface(r.value.value)
                  && r.value.value in t.declarations
                  && r.value.value == (if |c| == 1 then c[0] else c[1]))
  {
    var c := Candidates(t);
    if |c| > 1 then
      if c[0].name == "Date" then Ok(Some(c[1])) else Err(MultipleDeclarations)
    else if |c| == 0 then Ok(None)
    else Ok(Some(c[0]))
  }

  /** Declarations that are neither classes nor interfaces never change the resolution. */
  lemma ResolveIgnoresOtherDeclarations(t: TypeNode, before: seq<Decl>, other: Decl, after: seq<Decl>)
    requires t.declarations == before + after && !IsClassOrInterface(other)
    ensures ResolveDeclaration(t.(declarations := before + [other] + after)) == ResolveDeclaration(t)
  {
    Seqs.FilterAppend(before + [other], after, IsClassOrInterface);
    Seqs.FilterAppend(before, [other], IsClassOrInterface);
    Seqs.FilterAppend(before, after, IsClassOrInterface);
    assert Seqs.Filter([other], IsClassOrInterface) == [] by {
      assert [other][1..] == [];
    }
    assert Seqs.Filter(before, IsClassOrInterface) + [] == Seqs.Filter(before, IsClassOrInterface);
  }

  /** The tie-break is positional: `Date` must come first, and then any number of
      further candidates are accepted. */
  lemma DateTieBreakExamples(date: Decl, a: Decl, b: Decl, syntax: TypeSyntax, text: string)
    requires date.name == "Date" && a.name != "Date"
    requires IsClassOrInterface(date) && IsClassOrInterface(a) && IsClassOrInterface(b)
    ensures ResolveDeclaration(TypeNode([date, a, b], syntax, text)) == Ok(Some(a))
    ensures ResolveDeclaration(TypeNode([a, date], syntax, text)) == Err(MultipleDeclarations)
    ensures ResolveDeclaration(TypeNode([a], syntax, text)) == Ok(Some(a))
  {
    Seqs.FilterKeepsAll([date, a, b], IsClassOrInterface);
    Seqs.FilterKeepsAll([a, date], IsClassOrInterface);
    Seqs.FilterKeepsAll([a], IsClassOrInterface);
  }

  // ---------------------------------------------------------------------------
  // The property-type label of `_fillProperties`

  /** The label of a property's type, in priority order: the fully-qualified name
      of the class or interface it resolves to, then the keyword types, then the
      left part of a qualified name, then the trimmed source text. */
  function TypeLabel(t: TypeNode): (r: Result<string, Error>)
    ensures r.Err? <==> ResolveDeclaration(t).Err?
    ensures r.Err? ==> r.error == MultipleDeclarations
    ensures ResolveDeclaration(t).Ok? && ResolveDeclaration(t).value.Some? ==>
              r == Ok(ResolveDeclaration(t).value.value.fullName)
    ensures ResolveDeclaration(t) == Ok(None) ==>
              && (t.syntax.StringKeyword? ==> r == Ok("string"))
              && (t.syntax.NumberKeyword? ==> r == Ok("number"))
              && (t.syntax.BooleanKeyword? ==> r == Ok("boolean"))
              && (t.syntax.QualifiedReference? ==> r == Ok(t.syntax.left))
              && (t.syntax.OtherSyntax? ==> r == Ok(Trim(t.text)))
  {
    var resolved :- ResolveDeclaration(t);
    if resolved.Some? then Ok(resolved.value.fullName)
    else match t.syntax
      case StringKeyword => Ok("string")
      case NumberKeyword => Ok("number")
      case BooleanKeyword => Ok("boolean")
      case QualifiedReference(left) => Ok(left)
      case OtherSyntax => Ok(Trim(t.text))
  }

  /** A resolved declaration wins over the annotation's shape and text. */
  lemma ResolvedLabelWins(t: TypeNode, syntax: TypeSyntax, text: string)
    requires Candidates(t) != []
    ensures TypeLabel(t.(syntax := syntax, text := text)) == TypeLabel(t)
  {
    assert Candidates(t.(syntax := syntax, text := text)) == Candidates(t);
  }

  /** Without a declaration, a keyword or a qualified name wins over the text. */
  lemma SyntaxLabelWins(t: TypeNode, text: string)
    requires Candidates(t) == [] && !t.syntax.OtherSyntax?
    ensures TypeLabel(t.(text := text)) == TypeLabel(t)
  {
    assert Candidates(t.(text := text)) == Candidates(t);
  }

  /** The text fallback is the annotation's text without its surrounding
      whitespace: a slice of the text with only whitespace before and after it,
      itself neither starting nor ending with whitespace. */
  lemma TextLabelIsTrimmed(t: TypeNode)
    requires Candidates(t) == [] && t.syntax.OtherSyntax?
    ensures TypeLabel(t) == Ok(Trim(t.text))
    ensures var l := TypeLabel(t).value;
            && (|l| > 0 ==> !IsTrimmable(l[0]) && !IsTrimmable(l[|l| - 1]))
            && exists k :: 0 <= k <= |t.text| && TrimmedAt(t.text, k, l)
  {
  }

  /** Without a declaration, a qualified name is labelled by its left part,
      whatever its text. */
  lemma QualifiedLabelIsLeft(t: TypeNode, text: string)
    requires Candidates(t) == [] && t.syntax.QualifiedReference?
    ensures TypeLabel(t.(text := text)) == Ok(t.syntax.left)
  {
  }

  // ---------------------------------------------------------------------------
  // `_adjustProperty`

  /** Property names that never become attributes. */
  const DroppedNames := ["parent", "ios", "android", "isLayoutValid", "visualState", "isLoaded"]

  /** Property types that never become attributes. */
  const FilteredPropertyTypes := [
    "\"ui/core/dependency-observable\".Property",
    "\"ui/core/view\".View",
    "any",
    "\"image-source\".ImageSource",
    "\"ui/frame\".Frame"
  ]

  /** The name matches `^(.*)Event$`: it ends in "Event", and the part before holds
      no line terminator (which `.` would not match). */
  predicate IsEventName(name: string) {
    EndsWith(name, "Event") && NoLineTerminators(name[..|name| - 5])
  }

  /** `_adjustProperty`: `None` drops the property; an event property loses its
      "Event" suffix and is kept whatever its type. */
  function AdjustProperty(p: Property): (r: Option<Property>)
    ensures r.None? <==>
              || p.name in DroppedNames
              || StartsWith(p.name, "_")
              || (!IsEventName(p.name) && p.propertyType.fullName in FilteredPropertyTypes)
    ensures r.Some? ==> r.value.propertyType == p.propertyType
    ensures r.Some? && IsEventName(p.name) ==> r.value.name + "Event" == p.name
    ensures r.Some? && !IsEventName(p.name) ==> r.value == p
  {
    if p.name in DroppedNames then None
    else if StartsWith(p.name, "_") then None
    else if IsEventName(p.name) then Some(Property(WithoutEventSuffix(p.name), p.propertyType))
    else if p.propertyType.fullName in FilteredPropertyTypes then None
    else Some(p)
  }

  /** The group `(.*)` of `^(.*)Event$`: the name without its "Event" suffix. */
  function WithoutEventSuffix(name: string): (r: string)
    requires EndsWith(name, "Event")
    ensures r + "Event" == name
  {
    var r := name[..|name| - 5];
    assert name == r + name[|name| - 5..];
    r
  }

  /** No surviving property name starts with an underscore, and a property kept
      under its own name never has a filtered type. */
  lemma AdjustedPropertyIsClean(p: Property)
    requires AdjustProperty(p).Some?
    ensures !StartsWith(AdjustProperty(p).value.name, "_")
    ensures AdjustProperty(p).value.name == p.name ==> p.propertyType.fullName !in FilteredPropertyTypes || IsEventName(p.name)
  {
  }

  /** The names the tests expect to disappear whatever their type. */
  lemma DroppedNameExamples(t: Type)
    ensures AdjustProperty(Property("parent", t)).None?
    ensures AdjustProperty(Property("_privateThing", t)).None?
  {
    assert StartsWith("_privateThing", "_");
  }

  lemma WidthIsPlain()
    ensures !StartsWith("width", "_") && !EndsWith("width", "Event") && "width" !in DroppedNames
  {
    assert "width"[..1] == "w";
    assert "width"[0..] == "width";
  }

  /** The types the tests expect to disappear. */
  lemma FilteredTypeExamples()
    ensures AdjustProperty(Property("width", Type("\"ui/core/view\".View"))).None?
    ensures AdjustProperty(Property("width", Type("any"))).None?
  {
    WidthIsPlain();
  }

  /** An event keeps its type, even a filtered one, and loses its suffix; an
      ordinary property passes unchanged. */
  lemma KeptPropertyExamples()
    ensures AdjustProperty(Property("tapEvent", Type("any"))) == Some(Property("tap", Type("any")))
    ensures AdjustProperty(Property("width", Type("number"))) == Some(Property("width", Type("number")))
  {
    WidthIsPlain();
    assert !StartsWith("tapEvent", "_") && EndsWith("tapEvent", "Event");
    assert "tapEvent" !in DroppedNames;
    assert "tapEvent"[..3] == "tap";
  }

  // ---------------------------------------------------------------------------
  // `_fillProperties`

  /** What one member contributes: nothing for a non-property; for a property,
      its type's label is computed and the adjustment policy decides. */
  function MemberProperties(m: Member): (r: Result<seq<Property>, Error>)
    ensures r.Ok? <==> (m.PropertyDeclaration? ==> TypeLabel(m.declaredType).Ok?)
    ensures r.Err? ==> r.error == MultipleDeclarations
    ensures r.Ok? ==> forall j :: 0 <= j < |r.value| ==> !StartsWith(r.value[j].name, "_")
    ensures r.Ok? && m.OtherMember? ==> r.value == []
    ensures r.Ok? && m.PropertyDeclaration? ==>
              var adjusted := AdjustProperty(Property(m.name, Type(TypeLabel(m.declaredType).value)));
              r.value == if adjusted.Some? then [adjusted.value] else []
  {
    if m.OtherMember? then Ok([])
    else
      var typeLabel :- TypeLabel(m.declaredType);
      var adjusted := AdjustProperty(Property(m.name, Type(typeLabel)));
      if adjusted.Some? then
        AdjustedPropertyIsClean(Property(m.name, Type(typeLabel)));
        Ok([adjusted.value])
      else Ok([])
  }

  /** `_fillProperties`: the properties the members yield, in member order. */
  function FillProperties(members: seq<Member>): (r: Result<seq<Property>, Error>)
    ensures r.Ok? <==> forall i :: 0 <= i < |members| ==> MemberProperties(members[i]).Ok?
    ensures r.Err? ==> r.error == MultipleDeclarations
    ensures r.Ok? ==> |r.value| <= |members|
    ensures r.Ok? ==> forall j :: 0 <= j < |r.value| ==> !StartsWith(r.value[j].name, "_")
    decreases |members|
  {
    if |members| == 0 then Ok([])
    else
      assert forall i :: 1 <= i < |members| ==> members[i] == members[1..][i - 1];
      var head :- MemberProperties(members[0]);
      var rest :- FillProperties(members[1..]);
      Ok(head + rest)
  }

  /** A single member yields exactly its own contribution. */
  lemma FillPropertiesOne(m: Member)
    ensures FillProperties([m]) == MemberProperties(m)
  {
    assert [m][1..] == [];
    if MemberProperties(m).Ok? {
      assert MemberProperties(m).value + [] == MemberProperties(m).value;
    }
  }

  lemma FillPropertiesCons(members: seq<Member>)
    requires |members| > 0
    ensures FillProperties(members).Ok? <==>
              MemberProperties(members[0]).Ok? && FillProperties(members[1..]).Ok?
    ensures FillProperties(members).Ok? ==>
              FillProperties(members).value == MemberProperties(members[0]).value + FillProperties(members[1..]).value
  {
    var head := MemberProperties(members[0]);
    var rest := FillProperties(members[1..]);
    if head.Ok? && rest.Ok? {
      assert FillProperties(members) == Ok(head.value + rest.value);
    } else if head.Err? {
      assert FillProperties(members) == Err(head.error);
    } else {
      assert FillProperties(members) == Err(rest.error);
    }
  }

  /** Members are handled one after another: the properties of `a + b` are those
      of `a` followed by those of `b`. */
  lemma {:induction false} FillPropertiesAppend(a: seq<Member>, b: seq<Member>)
    requires FillProperties(a).Ok? && FillProperties(b).Ok?
    ensures FillProperties(a + b) == Ok(FillProperties(a).value + FillProperties(b).value)
    decreases |a|
  {
    if |a| == 0 {
      assert a + b == b;
      assert [] + FillProperties(b).value == FillProperties(b).value;
    } else {
      var ab := a + b;
      assert ab[0] == a[0] && ab[1..] == a[1..] + b by {
        Seqs.ConsAppend(a, b);
      }
      FillPropertiesCons(a);
      FillPropertiesAppend(a[1..], b);
      FillPropertiesCons(ab);
      Seqs.AppendAssociative(MemberProperties(a[0]).value, FillProperties(a[1..]).value, FillProperties(b).value);
    }
  }

  // ---------------------------------------------------------------------------
  // `_getBaseClass` and `_fillBaseClassNames`

  /** `_getBaseClass`: only the first heritage clause counts, only when it is
      `extends`, and only its first type. */
  function GetBaseClass(d: Decl): (r: Result<Option<Decl>, Error>)
    ensures |d.heritage| == 0 || d.heritage[0].token == ImplementsKeyword ==> r == Ok(None)
    ensures |d.heritage| > 0 && d.heritage[0].token == ExtendsKeyword ==>
              r == ResolveDeclaration(d.heritage[0].first)
    ensures r.Err? ==> r.error == MultipleDeclarations
    ensures r.Ok? && r.value.Some? ==>
              && r.value.value in d.heritage[0].first.declarations
              && IsClassOrInterface(r.value.value)
  {
    if |d.heritage| == 0 then Ok(None)
    else if d.heritage[0].token == ExtendsKeyword then ResolveDeclaration(d.heritage[0].first)
    else Ok(None)
  }

  /** Clauses after the first, and types after the first one of the first clause,
      never influence the base class. */
  lemma BaseClassIgnoresTheRest(d: Decl, others: seq<TypeNode>, later: seq<HeritageClause>)
    requires |d.heritage| > 0
    ensures var first := d.heritage[0].(others := others);
            GetBaseClass(d.(heritage := [first] + later)) == GetBaseClass(d)
  {
  }

  /** A base class is part of the declaration that names it, so walking up the
      chain terminates. */
  lemma BaseIsSmaller(d: Decl, b: Decl)
    requires GetBaseClass(d) == Ok(Some(b))
    ensures b < d
  {
    var clause := d.heritage[0];
    assert clause in d.heritage;
    assert b in clause.first.declarations;
  }

  /** `_fillBaseClassNames`: the fully-qualified names of the ancestors, nearest
      first. A class without a base gets the empty list (the source returns
      nothing, which the `Class` constructor turns into the empty list). */
  function FillBaseClassNames(d: Decl): (r: Result<seq<Type>, Error>)
    ensures r.Err? ==> r.error == MultipleDeclarations
    ensures GetBaseClass(d).Err? ==> r.Err?
    ensures GetBaseClass(d) == Ok(None) ==> r == Ok([])
    ensures r.Ok? && |r.value| > 0 ==> GetBaseClass(d).Ok? && GetBaseClass(d).value.Some?
    decreases d
  {
    var base :- GetBaseClass(d);
    if base.None? then Ok([])
    else
      var clause := d.heritage[0];
      var node := clause.first;
      assert base.value in node.declarations;
      var rest :- FillBaseClassNames(base.value);
      Ok([Type(base.value.fullName)] + rest)
  }

  /** The `k`-th ancestor of `d` (`d` itself for `k == 0`), when the chain is that long. */
  function Ancestor(d: Decl, k: nat): Option<Decl>
    decreases k
  {
    if k == 0 then Some(d)
    else match GetBaseClass(d)
      case Ok(Some(b)) => Ancestor(b, k - 1)
      case _ => None
  }

  lemma FillBaseStep(d: Decl, b: Decl)
    requires GetBaseClass(d) == Ok(Some(b)) && FillBaseClassNames(d).Ok?
    ensures FillBaseClassNames(b).Ok?
    ensures FillBaseClassNames(d).value == [Type(b.fullName)] + FillBaseClassNames(b).value
  {
  }

  lemma FillBaseUnfold(d: Decl, b: Decl)
    requires GetBaseClass(d) == Ok(Some(b)) && FillBaseClassNames(b).Ok?
    ensures FillBaseClassNames(d) == Ok([Type(b.fullName)] + FillBaseClassNames(b).value)
  {
  }

  lemma AncestorStep(d: Decl, b: Decl, k: nat)
    requires GetBaseClass(d) == Ok(Some(b))
    ensures Ancestor(d, k + 1) == Ancestor(b, k)
  {
  }

  /** `names` are the fully-qualified names of `d`'s ancestors, nearest first:
      the `k`-th name is that of the `k`-th ancestor. */
  predicate NamesAncestors(d: Decl, names: seq<Type>) {
    forall k :: 1 <= k <= |names| ==>
      Ancestor(d, k).Some? && names[k - 1] == Type(Ancestor(d, k).value.fullName)
  }

  lemma ShiftedAncestorAt(d: Decl, b: Decl, rest: seq<Type>, k: nat)
    requires GetBaseClass(d) == Ok(Some(b)) && NamesAncestors(b, rest)
    requires 1 <= k <= |rest| + 1
    ensures Ancestor(d, k).Some?
    ensures ([Type(b.fullName)] + rest)[k - 1] == Type(Ancestor(d, k).value.fullName)
  {
    AncestorStep(d, b, k - 1);
    if k > 1 {
      assert ([Type(b.fullName)] + rest)[k - 1] == rest[k - 2];
      assert Ancestor(b, k - 1).Some? && rest[k - 2] == Type(Ancestor(b, k - 1).value.fullName);
    }
  }

  lemma ShiftedAncestors(d: Decl, b: Decl, rest: seq<Type>)
    requires GetBaseClass(d) == Ok(Some(b)) && NamesAncestors(b, rest)
    ensures NamesAncestors(d, [Type(b.fullName)] + rest)
  {
    var names := [Type(b.fullName)] + rest;
    forall k | 1 <= k <= |names|
      ensures Ancestor(d, k).Some? && names[k - 1] == Type(Ancestor(d, k).value.fullName)
    {
      ShiftedAncestorAt(d, b, rest, k);
    }
  }

  /** The base-class names are those of the ancestors, nearest first. */
  lemma {:induction false} BaseClassNamesAreAncestors(d: Decl)
    requires FillBaseClassNames(d).Ok?
    ensures NamesAncestors(d, FillBaseClassNames(d).value)
    decreases d
  {
    var base := GetBaseClass(d).value;
    if base.Some? {
      var b := base.value;
      BaseIsSmaller(d, b);
      FillBaseStep(d, b);
      BaseClassNamesAreAncestors(b);
      ShiftedAncestors(d, b, FillBaseClassNames(b).value);
    }
  }

  /** Some ancestor of `d` (or `d` itself) has a base type that cannot be resolved. */
  ghost predicate ChainFails(d: Decl) {
    exists k: nat :: Ancestor(d, k).Some? && GetBaseClass(Ancestor(d, k).value).Err?
  }

  /** The walk fails exactly when resolving a base fails somewhere up the chain. */
  lemma {:induction false} FillBaseFailsUpTheChain(d: Decl)
    ensures FillBaseClassNames(d).Err? <==> ChainFails(d)
    decreases d
  {
    assert Ancestor(d, 0) == Some(d);
    match GetBaseClass(d)
    case Err(_) =>
    case Ok(None) =>
      forall k: nat | Ancestor(d, k).Some? ensures GetBaseClass(Ancestor(d, k).value).Ok? {
        assert k == 0;
      }
    case Ok(Some(b)) =>
      BaseIsSmaller(d, b);
      FillBaseFailsUpTheChain(b);
      if ChainFails(b) {
        var k: nat :| Ancestor(b, k).Some? && GetBaseClass(Ancestor(b, k).value).Err?;
        AncestorStep(d, b, k);
      }
      if ChainFails(d) {
        var k: nat :| Ancestor(d, k).Some? && GetBaseClass(Ancestor(d, k).value).Err?;
        assert k > 0;
        AncestorStep(d, b, k - 1);
        assert Ancestor(b, k - 1).Some? && GetBaseClass(Ancestor(b, k - 1).value).Err?;
      }
  }

  /** The chain ends where the list ends: the last ancestor named has no base class. */
  lemma {:induction false} BaseChainEnds(d: Decl)
    requires FillBaseClassNames(d).Ok?
    ensures Ancestor(d, |FillBaseClassNames(d).value|).Some?
    ensures GetBaseClass(Ancestor(d, |FillBaseClassNames(d).value|).value) == Ok(None)
    decreases d
  {
    var base := GetBaseClass(d).value;
    if base.Some? {
      var b := base.value;
      BaseIsSmaller(d, b);
      FillBaseStep(d, b);
      BaseChainEnds(b);
      var m := |FillBaseClassNames(b).value|;
      assert |FillBaseClassNames(d).value| == m + 1;
      AncestorStep(d, b, m);
    }
  }

  /** The chain the extraction test expects for a label: its text base, then the view. */
  lemma LabelChainExample()
    ensures var view := Decl(ClassDeclaration, "View", ViewFullName, []);
            var textBase := Decl(ClassDeclaration, "TextBase", "\"ui/text-base\".TextBase",
                                 [HeritageClause(ExtendsKeyword, TypeNode([view], OtherSyntax, " View"), [])]);
            var labelDecl := Decl(ClassDeclaration, "Label", "\"ui/label\".Label",
                              [HeritageClause(ExtendsKeyword, TypeNode([textBase], OtherSyntax, " TextBase"), [])]);
            FillBaseClassNames(labelDecl) == Ok([Type("\"ui/text-base\".TextBase"), Type(ViewFullName)])
  {
    var view := Decl(ClassDeclaration, "View", ViewFullName, []);
    var textBase := Decl(ClassDeclaration, "TextBase", "\"ui/text-base\".TextBase",
                         [HeritageClause(ExtendsKeyword, TypeNode([view], OtherSyntax, " View"), [])]);
    var labelDecl := Decl(ClassDeclaration, "Label", "\"ui/label\".Label",
                      [HeritageClause(ExtendsKeyword, TypeNode([textBase], OtherSyntax, " TextBase"), [])]);
    Seqs.FilterKeepsAll([view], IsClassOrInterface);
    Seqs.FilterKeepsAll([textBase], IsClassOrInterface);
    assert GetBaseClass(view) == Ok(None);
    assert GetBaseClass(textBase) == Ok(Some(view));
    assert GetBaseClass(labelDecl) == Ok(Some(textBase));
    assert FillBaseClassNames(view) == Ok([]);
    FillBaseUnfold(textBase, view);
    assert [Type(ViewFullName)] + [] == [Type(ViewFullName)];
    FillBaseUnfold(labelDecl, textBase);
    assert [Type(textBase.fullName)] + [Type(ViewFullName)] == [Type("\"ui/text-base\".TextBase"), Type(ViewFullName)];
  }

  /** A class that only implements interfaces has no base class. */
  lemma ImplementsOnlyHasNoBase(d: Decl)
    requires |d.heritage| > 0 && d.heritage[0].token == ImplementsKeyword
    ensures FillBaseClassNames(d) == Ok([])
  {
  }

  // ---------------------------------------------------------------------------
  // `_getAllClasses` and `buildTree`

  /** The class built from one class declaration. */
  function ExtractClass(s: ClassSource): (r: Result<Class, Error>)
    ensures r.Err? <==> FillBaseClassNames(s.decl).Err? || FillProperties(s.members).Err?
    ensures r.Err? ==> r.error == MultipleDeclarations
    ensures r.Ok? ==>
              && r.value.name == s.decl.name && r.value.fullName == s.decl.fullName
              && r.value.classComments == s.comments
              && r.value.baseClassNames == FillBaseClassNames(s.decl).value
              && r.value.properties == FillProperties(s.members).value
  {
    var baseClassNames :- FillBaseClassNames(s.decl);
    var properties :- FillProperties(s.members);
    var c := NewClass(s.decl.name, s.decl.fullName, s.comments, Some(baseClassNames));
    Ok(c.(properties := properties))
  }

  /** Every class declaration of the program, in traversal order. */
  function GetAllClasses(sources: seq<ClassSource>): (r: Result<seq<Class>, Error>)
    ensures r.Ok? <==> forall i :: 0 <= i < |sources| ==> ExtractClass(sources[i]).Ok?
    ensures r.Ok? ==> |r.value| == |sources|
                      && forall i :: 0 <= i < |sources| ==> r.value[i] == ExtractClass(sources[i]).value
    ensures r.Err? ==> r.error == MultipleDeclarations
  {
    MapAll(sources, ExtractClass)
  }

  /** The filters of `buildTree`, each applied to the result of the previous one. */
  function ApplyFilters(classes: seq<Class>, filters: seq<seq<Class> -> seq<Class>>): seq<Class>
    decreases |filters|
  {
    if |filters| == 0 then classes else ApplyFilters(filters[0](classes), filters[1..])
  }

  /** Applying two lists of filters is applying the first list, then the second. */
  lemma {:induction false} ApplyFiltersAppend(classes: seq<Class>, first: seq<seq<Class> -> seq<Class>>,
                                              second: seq<seq<Class> -> seq<Class>>)
    ensures ApplyFilters(classes, first + second) == ApplyFilters(ApplyFilters(classes, first), second)
    decreases |first|
  {
    if |first| == 0 {
      assert first + second == second;
    } else {
      assert (first + second)[0] == first[0];
      assert (first + second)[1..] == first[1..] + second;
      ApplyFiltersAppend(first[0](classes), first[1..], second);
    }
  }

  /** `classes[j]` is the first class whose full name is already taken, either
      by `prior` or by a class before it. */
  predicate FirstRepeat(prior: seq<Class>, classes: seq<Class>, j: int) {
    && 0 <= j < |classes|
    && UniqueFullNames(prior + classes[..j])
    && HasFullName(prior + classes[..j], classes[j].fullName)
  }

  /** A first repeat after one more class already in the tree is a first repeat
      one position later when that class is still to be added. */
  lemma FirstRepeatShift(prior: seq<Class>, c: Class, rest: seq<Class>, j: int)
    requires FirstRepeat(prior + [c], rest, j)
    ensures FirstRepeat(prior, [c] + rest, j + 1)
  {
    assert ([c] + rest)[..j + 1] == [c] + rest[..j];
    assert prior + ([c] + rest)[..j + 1] == prior + [c] + rest[..j];
  }

  /** Adds the classes to the tree one by one; the first repeated fully-qualified
      name stops it. */
  function AddClasses(t: Tree, classes: seq<Class>): (r: Result<Tree, Error>)
    requires UniqueFullNames(t.classes)
    ensures r.Ok? <==> UniqueFullNames(t.classes + classes)
    ensures r.Ok? ==> r.value.classes == t.classes + classes
    ensures r.Err? ==> r.error.DuplicateClass?
                       && exists i, j :: 0 <= i < j < |t.classes + classes|
                                         && (t.classes + classes)[i].fullName == r.error.fullName
                                         && (t.classes + classes)[j].fullName == r.error.fullName
    ensures r.Err? ==> exists j :: FirstRepeat(t.classes, classes, j)
                                   && r.error == DuplicateClass(classes[j].fullName)
    decreases |classes|
  {
    if |classes| == 0 then
      assert t.classes + classes == t.classes;
      Ok(t)
    else
      var all := t.classes + classes;
      assert t.classes + [classes[0]] + classes[1..] == all;
      var added := AddClass(t, classes[0]);
      if added.Err? then
        var i :| 0 <= i < |t.classes| && t.classes[i].fullName == classes[0].fullName;
        assert all[i] == t.classes[i] && all[|t.classes|] == classes[0];
        assert !UniqueFullNames(all);
        assert t.classes + classes[..0] == t.classes;
        assert FirstRepeat(t.classes, classes, 0);
        Err(added.error)
      else
        var r := AddClasses(added.value, classes[1..]);
        assert !UniqueFullNames(added.value.classes + classes[1..]) ==> !UniqueFullNames(all);
        if r.Err? then
          var j :| FirstRepeat(t.classes + [classes[0]], classes[1..], j)
                   && r.error == DuplicateClass(classes[1..][j].fullName);
          FirstRepeatShift(t.classes, classes[0], classes[1..], j);
          assert [classes[0]] + classes[1..] == classes;
          r
        else
          r
  }

  /** `buildTree`: every class, through the filters in order, into a fresh tree. */
  function BuildTree(sources: seq<ClassSource>, filters: seq<seq<Class> -> seq<Class>>): (r: Result<Tree, Error>)
    ensures GetAllClasses(sources).Err? ==> r == Err(MultipleDeclarations)
    ensures GetAllClasses(sources).Ok? ==>
              var survivors := ApplyFilters(GetAllClasses(sources).value, filters);
              && (r.Ok? <==> UniqueFullNames(survivors))
              && (r.Ok? ==> r.value.classes == survivors)
              && (r.Err? ==> r.error.DuplicateClass? && HasFullName(survivors, r.error.fullName))
              && (r.Err? ==> exists j :: FirstRepeat([], survivors, j)
                                         && r.error == DuplicateClass(survivors[j].fullName))
  {
    var all :- GetAllClasses(sources);
    var survivors := ApplyFilters(all, filters);
    var r := AddClasses(EmptyTree, survivors);
    AddedToEmpty(EmptyTree, survivors, r);
    r
  }

  /** What `AddClasses` promises, read for a tree that starts empty: failure
      exactly on a repeated name, which the error carries. */
  lemma AddedToEmpty(t: Tree, classes: seq<Class>, r: Result<Tree, Error>)
    requires t.classes == []
    requires r.Ok? <==> UniqueFullNames(t.classes + classes)
    requires r.Ok? ==> r.value.classes == t.classes + classes
    requires r.Err? ==> r.error.DuplicateClass?
                        && exists i, j :: 0 <= i < j < |t.classes + classes|
                                          && (t.classes + classes)[i].fullName == r.error.fullName
                                          && (t.classes + classes)[j].fullName == r.error.fullName
    requires r.Err? ==> exists j :: FirstRepeat(t.classes, classes, j)
                                    && r.error == DuplicateClass(classes[j].fullName)
    ensures r.Ok? <==> UniqueFullNames(classes)
    ensures r.Ok? ==> r.value.classes == classes
    ensures r.Err? ==> r.error.DuplicateClass? && HasFullName(classes, r.error.fullName)
    ensures r.Err? ==> exists j :: FirstRepeat([], classes, j)
                                   && r.error == DuplicateClass(classes[j].fullName)
  {
    assert t.classes + classes == classes;
  }
}
