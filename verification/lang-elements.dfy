/** The language model of lib/lang-elements.ts: types, properties, classes and
    the tree of classes that extraction produces and emission reads. */
module LangElements {
  import opened Wrappers
  import opened Errors
  import opened Text
  import Seqs

  // ---------------------------------------------------------------------------
  // Type

  /** A property's or base class's type, identified by its fully-qualified name
      such as `"ui/core/view".View` or a primitive such as `string`. */
  datatype Type = Type(fullName: string)

  /** The last character removed when it is a dot. */
  function StripTrailingDot(s: string): (r: string)
    ensures |s| > 0 && s[|s| - 1] == '.' ==> r == s[..|s| - 1]
    ensures !(|s| > 0 && s[|s| - 1] == '.') ==> r == s
  {
    if |s| > 0 && s[|s| - 1] == '.' then s[..|s| - 1] else s
  }

  /** `r` is the last dot-separated segment of `s`: a dot-free suffix of `s`
      that is either all of `s` or preceded by a dot. */
  predicate IsLastSegment(r: string, s: string) {
    && '.' !in r
    && EndsWith(s, r)
    && (|r| < |s| ==> s[|s| - |r| - 1] == '.')
  }

  /** The longest suffix of `s` that contains no dot. */
  function LastSegment(s: string): (r: string)
    ensures IsLastSegment(r, s)
    decreases |s|
  {
    if |s| == 0 || s[|s| - 1] == '.' then ""
    else LastSegment(s[..|s| - 1]) + [s[|s| - 1]]
  }

  /** A dot-free string is its own last segment. */
  lemma LastSegmentOfDotFree(s: string)
    requires '.' !in s
    ensures LastSegment(s) == s
  {
  }

  /** The index of the first line terminator in `s`, or `|s|` when there is none. */
  function LineEnd(s: string): (k: nat)
    ensures k <= |s|
    ensures forall i :: 0 <= i < k ==> !IsLineTerminator(s[i])
    ensures k < |s| ==> IsLineTerminator(s[k])
    decreases |s|
  {
    if |s| == 0 || IsLineTerminator(s[0]) then 0 else 1 + LineEnd(s[1..])
  }

  /** `s.replace(/(.*)\./, "")`. The regular expression's `.` does not match line
      terminators, so the leftmost match starts at the beginning of the first line
      that holds a dot and, `.*` being greedy, runs through that line's last dot. */
  function RemoveThroughLastDot(s: string): (r: string)
    ensures NoLineTerminators(s) ==> r == LastSegment(s)
    ensures '.' !in s ==> r == s
    decreases |s|
  {
    var k := LineEnd(s);
    assert '.' !in s ==> '.' !in s[..k] by {
      if '.' !in s {
        DotFreeParts(s, k);
      }
    }
    if '.' in s[..k] then LastSegment(s[..k]) + s[k..]
    else if k == |s| then
      (LastSegmentOfDotFree(s); s)
    else
      var rest := s[k + 1..];
      assert '.' !in s ==> '.' !in rest by {
        if '.' !in s {
          DotFreeParts(s, k + 1);
        }
      }
      assert s[..k + 1] + rest == s;
      s[..k + 1] + RemoveThroughLastDot(rest)
  }

  lemma DotFreeParts(s: string, k: nat)
    requires '.' !in s && k <= |s|
    ensures '.' !in s[..k] && '.' !in s[k..]
  {
    assert s == s[..k] + s[k..];
  }

  /** `Type._getName`: the short name derived from a possibly absent full name.
      Absent (null or undefined) gives absent, `"."` gives `"."`; otherwise one
      trailing dot is stripped and the text up to the last remaining dot removed. */
  function GetName(fullName: Option<string>): (r: Option<string>)
    ensures fullName.None? <==> r.None?
    ensures fullName == Some(".") ==> r == fullName
    ensures fullName.Some? && '.' !in fullName.value ==> r == fullName
    ensures fullName.Some? && fullName.value != "." && NoLineTerminators(fullName.value) ==>
              r.Some? && IsLastSegment(r.value, StripTrailingDot(fullName.value))
  {
    match fullName
    case None => None
    case Some(s) =>
      if s == "." then Some(s)
      else
        var t := StripTrailingDot(s);
        Some(RemoveThroughLastDot(t))
  }

  /** `Type.name`. */
  function Name(t: Type): string {
    GetName(Some(t.fullName)).value
  }

  /** With no line terminator, the name of a qualified `p.n`, with or without one
      trailing dot, is the final segment `n`. */
  lemma {:induction false} NameOfQualified(p: string, n: string)
    requires '.' !in n && |n| > 0
    requires NoLineTerminators(p + "." + n)
    ensures GetName(Some(p + "." + n)) == Some(n)
    ensures GetName(Some(p + "." + n + ".")) == Some(n)
  {
    var s := p + "." + n;
    assert s[|s| - 1] == n[|n| - 1];
    assert s[|s| - 1] in n;
    assert IsLastSegment(n, s);
    NameOfSegment(s, n);
    var s' := s + ".";
    assert StripTrailingDot(s') == s;
    assert NoLineTerminators(s') by {
      assert forall i :: 0 <= i < |s| ==> s'[i] == s[i];
    }
    NameOfSegment(s', n);
  }

  /** The name is the last segment of the full name once a trailing dot is stripped. */
  lemma NameOfSegment(s: string, n: string)
    requires s != "." && NoLineTerminators(s)
    requires IsLastSegment(n, StripTrailingDot(s))
    ensures GetName(Some(s)) == Some(n)
  {
    LastSegmentUnique(GetName(Some(s)).value, n, StripTrailingDot(s));
  }

  lemma LastSegmentUnique(a: string, b: string, s: string)
    requires IsLastSegment(a, s) && IsLastSegment(b, s)
    ensures a == b
  {
  }

  /** The special cases the type's tests pin down. */
  lemma NameSpecialCases()
    ensures GetName(None) == None
    ensures GetName(Some(".")) == Some(".")
    ensures GetName(Some("")) == Some("")
    ensures GetName(Some("ATypeName")) == Some("ATypeName")
  {
  }

  /** A dotted name and the same name with a trailing dot both give the last segment. */
  lemma NameDottedExamples()
    ensures GetName(Some("a.b.C")) == Some("C")
    ensures GetName(Some("a.b.C.")) == Some("C")
  {
    assert "a.b" + "." + "C" == "a.b.C";
    assert "a.b" + "." + "C" + "." == "a.b.C.";
    NameOfQualified("a.b", "C");
  }

  // ---------------------------------------------------------------------------
  // Property and Class

  /** A property: its name and its type. */
  datatype Property = Property(name: string, propertyType: Type)

  /** A declared component class. `baseClassNames` runs from the nearest ancestor
      towards the root; `properties` is filled during extraction. */
  datatype Class = Class(
    name: string,
    fullName: string,
    classComments: string,
    baseClassNames: seq<Type>,
    properties: seq<Property>)

  /** The `Class` constructor: an absent base-class list becomes the empty one and
      the property list starts empty. */
  function NewClass(name: string, fullName: string, classComments: string,
                    baseClassNames: Option<seq<Type>>): (c: Class)
    ensures c.name == name && c.fullName == fullName && c.classComments == classComments
    ensures c.properties == []
    ensures baseClassNames.None? ==> c.baseClassNames == []
    ensures baseClassNames.Some? ==> c.baseClassNames == baseClassNames.value
  {
    Class(name, fullName, classComments, baseClassNames.GetOr([]), [])
  }

  // ---------------------------------------------------------------------------
  // kebabName

  /** The first index at or after `i` holding an ASCII upper-case letter, or `|s|`. */
  function UpperFrom(s: string, i: nat): (j: nat)
    requires i <= |s|
    ensures i <= j <= |s|
    ensures forall k :: i <= k < j ==> !IsAsciiUpper(s[k])
    ensures j < |s| ==> IsAsciiUpper(s[j])
    decreases |s| - i
  {
    if i == |s| || IsAsciiUpper(s[i]) then i else UpperFrom(s, i + 1)
  }

  /** The pieces of a non-empty string cut before every upper-case letter past index 0. */
  function Chunks(s: string): (parts: seq<string>)
    requires |s| > 0
    ensures |parts| > 0
    decreases |s|
  {
    var j := UpperFrom(s, 1);
    [s[..j]] + (if j == |s| then [] else Chunks(s[j..]))
  }

  /** The chunks are non-empty, put back together they give `s`, and each one
      after the first starts at an upper-case letter, the only one it holds. */
  lemma {:induction false} ChunksArePieces(s: string)
    requires |s| > 0
    ensures var parts := Chunks(s);
            && Join(parts, "") == s
            && (forall k :: 0 <= k < |parts| ==> |parts[k]| > 0)
            && (forall k :: 0 < k < |parts| ==> IsAsciiUpper(parts[k][0]))
            && (forall k, m :: 0 <= k < |parts| && 1 <= m < |parts[k]| ==> !IsAsciiUpper(parts[k][m]))
    decreases |s|
  {
    var j := UpperFrom(s, 1);
    if j == |s| {
      assert s[..j] == s;
      assert Chunks(s) == [s];
    } else {
      ChunksArePieces(s[j..]);
      var rest := Chunks(s[j..]);
      assert Chunks(s) == [s[..j]] + rest;
      JoinCons(s[..j], rest, "");
      assert s[..j] + "" + s[j..] == s;
    }
  }

  /** `s.split(/(?=[A-Z])/)`: the pieces put back together give `s`; a cut falls
      before every upper-case letter past index 0 and nowhere else (a zero-width
      match at index 0 produces no cut), and the empty string splits into one
      empty piece. */
  function SplitBeforeUpper(s: string): (parts: seq<string>)
    ensures |parts| > 0
    ensures Join(parts, "") == s
    ensures |s| > 0 ==> forall k :: 0 <= k < |parts| ==> |parts[k]| > 0
    ensures forall k :: 0 < k < |parts| ==> |parts[k]| > 0 && IsAsciiUpper(parts[k][0])
    ensures forall k, m :: 0 <= k < |parts| && 1 <= m < |parts[k]| ==> !IsAsciiUpper(parts[k][m])
  {
    if |s| == 0 then [""]
    else
      ChunksArePieces(s);
      Chunks(s)
  }

  /** `Class.kebabName`: the name split before its upper-case letters, joined with
      hyphens and lower-cased. */
  function KebabName(c: Class): string {
    Lower(Join(SplitBeforeUpper(c.name), "-"))
  }

  /** Reference spelling, character by character: a hyphen before every upper-case
      letter of `t`. */
  function HyphenBeforeUpper(t: string): (r: string)
    ensures |r| >= |t|
    decreases |t|
  {
    if |t| == 0 then ""
    else (if IsAsciiUpper(t[0]) then "-" + [t[0]] else [t[0]]) + HyphenBeforeUpper(t[1..])
  }

  /** Reference spelling of a whole name: the first character as is, a hyphen
      before every later upper-case letter. */
  function Hyphenated(s: string): string {
    if |s| == 0 then "" else [s[0]] + HyphenBeforeUpper(s[1..])
  }

  lemma {:induction false} HyphenBeforeUpperAppend(a: string, b: string)
    ensures HyphenBeforeUpper(a + b) == HyphenBeforeUpper(a) + HyphenBeforeUpper(b)
    decreases |a|
  {
    if |a| == 0 {
      assert a + b == b;
    } else {
      assert (a + b)[1..] == a[1..] + b;
      HyphenBeforeUpperAppend(a[1..], b);
    }
  }

  lemma {:induction false} HyphenBeforeUpperNoUpper(t: string)
    requires forall k :: 0 <= k < |t| ==> !IsAsciiUpper(t[k])
    ensures HyphenBeforeUpper(t) == t
    decreases |t|
  {
    if |t| > 0 {
      HyphenBeforeUpperNoUpper(t[1..]);
      assert [t[0]] + t[1..] == t;
    }
  }

  lemma {:induction false} JoinChunks(s: string)
    requires |s| > 0
    ensures Join(Chunks(s), "-") == Hyphenated(s)
    decreases |s|
  {
    var j := UpperFrom(s, 1);
    var head, tail := s[..j], s[j..];
    HyphenatedOfHead(s, j);
    if j == |s| {
      assert Chunks(s) == [head];
      assert head == s;
    } else {
      JoinChunks(tail);
      var rest := Chunks(tail);
      assert Chunks(s) == [head] + rest;
      JoinCons(head, rest, "-");
      assert Hyphenated(tail) == Join(rest, "-");
      HyphenatedOfRest(s, j);
    }
  }

  /** Up to the first upper-case letter past index 0 the name is copied unchanged. */
  lemma HyphenatedOfHead(s: string, j: nat)
    requires 1 <= j <= |s|
    requires forall k :: 1 <= k < j ==> !IsAsciiUpper(s[k])
    ensures Hyphenated(s) == s[..j] + HyphenBeforeUpper(s[j..])
  {
    var a, b := s[1..j], s[j..];
    assert s[1..] == a + b;
    HyphenBeforeUpperAppend(a, b);
    assert forall k :: 0 <= k < |a| ==> a[k] == s[k + 1];
    HyphenBeforeUpperNoUpper(a);
    calc {
      Hyphenated(s);
      [s[0]] + HyphenBeforeUpper(a + b);
      [s[0]] + (a + HyphenBeforeUpper(b));
      ([s[0]] + a) + HyphenBeforeUpper(b);
      { assert [s[0]] + a == s[..j]; }
      s[..j] + HyphenBeforeUpper(b);
    }
  }

  lemma HyphenatedOfRest(s: string, j: nat)
    requires 1 <= j < |s| && IsAsciiUpper(s[j])
    ensures HyphenBeforeUpper(s[j..]) == "-" + Hyphenated(s[j..])
  {
    assert s[j..][1..] == s[j + 1..];
  }

  /** kebabName agrees with the character-by-character reference: the name
      lower-cased, with a hyphen before every upper-case letter past index 0. */
  lemma KebabNameIsHyphenated(c: Class)
    ensures KebabName(c) == Lower(Hyphenated(c.name))
  {
    if |c.name| > 0 {
      JoinChunks(c.name);
    }
  }

  /** A hyphen is never added in front: the kebab name starts with the lower-cased
      first character of the name. */
  lemma KebabNameNoLeadingHyphen(c: Class)
    requires |c.name| > 0
    ensures |KebabName(c)| > 0 && KebabName(c)[0] == LowerChar(c.name[0])
  {
    KebabNameIsHyphenated(c);
  }

  /** Cutting a name before an upper-case letter cuts its kebab spelling at a hyphen. */
  lemma HyphenatedConcat(a: string, b: string)
    requires |a| > 0 && |b| > 0 && IsAsciiUpper(b[0])
    ensures Hyphenated(a + b) == Hyphenated(a) + "-" + Hyphenated(b)
  {
    var x := a[1..];
    HyphenatedCons(a, b);
    HyphenBeforeUpperAppend(x, b);
    HyphenBeforeUpperAtUpper(b);
    Seqs.RegroupRight([a[0]], HyphenBeforeUpper(x), "-", Hyphenated(b));
  }

  lemma HyphenatedCons(a: string, b: string)
    requires |a| > 0
    ensures Hyphenated(a + b) == [a[0]] + HyphenBeforeUpper(a[1..] + b)
  {
    assert (a + b)[0] == a[0] && (a + b)[1..] == a[1..] + b;
  }

  lemma HyphenBeforeUpperAtUpper(b: string)
    requires |b| > 0 && IsAsciiUpper(b[0])
    ensures HyphenBeforeUpper(b) == "-" + Hyphenated(b)
  {
    var h := HyphenBeforeUpper(b[1..]);
    assert HyphenBeforeUpper(b) == ("-" + [b[0]]) + h;
    assert Hyphenated(b) == [b[0]] + h;
    Seqs.AppendAssociative("-", [b[0]], h);
  }

  lemma HyphenatedOneWord(s: string)
    requires |s| > 0
    requires forall k :: 1 <= k < |s| ==> !IsAsciiUpper(s[k])
    ensures Hyphenated(s) == s
  {
    HyphenBeforeUpperNoUpper(s[1..]);
    assert [s[0]] + s[1..] == s;
  }

  lemma KebabNameListView(c: Class)
    requires c.name == "ListView"
    ensures KebabName(c) == "list-view"
  {
    KebabNameIsHyphenated(c);
    HyphenatedListView();
    LowerListView();
  }

  lemma HyphenatedListView()
    ensures Hyphenated("ListView") == "List-View"
  {
    assert "ListView" == "List" + "View";
    HyphenatedConcat("List", "View");
    HyphenatedOneWord("List");
    HyphenatedOneWord("View");
  }

  lemma LowerListView()
    ensures Lower("List-View") == "list-view"
  {
    var r := Lower("List-View");
    assert |r| == 9;
    assert r[0] == 'l' && r[1] == 'i' && r[2] == 's' && r[3] == 't' && r[4] == '-';
    assert r[5] == 'v' && r[6] == 'i' && r[7] == 'e' && r[8] == 'w';
  }

  lemma KebabNameABC(c: Class)
    requires c.name == "ABC"
    ensures KebabName(c) == "a-b-c"
  {
    KebabNameIsHyphenated(c);
    HyphenatedABC();
    LowerABC();
  }

  lemma HyphenatedABC()
    ensures Hyphenated("ABC") == "A-B-C"
  {
    assert "ABC" == "A" + "BC";
    assert "BC" == "B" + "C";
    HyphenatedConcat("B", "C");
    HyphenatedConcat("A", "BC");
  }

  lemma LowerABC()
    ensures Lower("A-B-C") == "a-b-c"
  {
    var r := Lower("A-B-C");
    assert |r| == 5;
    assert r[0] == 'a' && r[1] == '-' && r[2] == 'b' && r[3] == '-' && r[4] == 'c';
  }

  // ---------------------------------------------------------------------------
  // Tree

  /** No two classes share a fully-qualified name. */
  predicate UniqueFullNames(classes: seq<Class>) {
    forall i, j :: 0 <= i < j < |classes| ==> classes[i].fullName != classes[j].fullName
  }

  /** Some class in `classes` carries `fullName`. */
  predicate HasFullName(classes: seq<Class>, fullName: string) {
    exists i :: 0 <= i < |classes| && classes[i].fullName == fullName
  }

  /** The full name of the root of all visual elements, which the schema writer and
      the view filter both treat specially. */
  const ViewFullName := "\"ui/core/view\".View"

  /** The container of all classes. */
  datatype Tree = Tree(classes: seq<Class>)

  const EmptyTree := Tree([])

  /** `Tree.addClass`: appends the class, or fails when its fully-qualified name is
      already present. A failure produces no tree, so the caller's tree is unchanged. */
  function AddClass(t: Tree, c: Class): (r: Result<Tree, Error>)
    ensures r.Err? <==> HasFullName(t.classes, c.fullName)
    ensures r.Err? ==> r.error == DuplicateClass(c.fullName)
    ensures r.Ok? ==> r.value.classes == t.classes + [c]
    ensures r.Ok? && UniqueFullNames(t.classes) ==> UniqueFullNames(r.value.classes)
  {
    var contained := Seqs.Filter(t.classes, (checked: Class) => checked.fullName == c.fullName);
    if |contained| > 0 then
      assert contained[0] in t.classes;
      Err(DuplicateClass(c.fullName))
    else
      assert forall i :: 0 <= i < |t.classes| ==> t.classes[i].fullName != c.fullName;
      Ok(Tree(t.classes + [c]))
  }

  /** The tree's own test: two classes with distinct names go in, a third reusing
      the first one's fully-qualified name is refused. */
  lemma AddClassExample(a: Class, b: Class, d: Class)
    requires a.fullName == "fullClassName" && b.fullName == "fullClassName2"
    requires d.fullName == "fullClassName"
    ensures AddClass(EmptyTree, a).Ok?
    ensures AddClass(AddClass(EmptyTree, a).value, b).Ok?
    ensures AddClass(AddClass(AddClass(EmptyTree, a).value, b).value, d)
              == Err(DuplicateClass("fullClassName"))
  {
    var t1 := AddClass(EmptyTree, a).value;
    var t2 := AddClass(t1, b).value;
    assert t2.classes[0].fullName == "fullClassName";
  }
}
