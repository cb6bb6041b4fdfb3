/** lib/view-extenders-filter.ts: the classes that become schema elements. */
module ViewExtendersFilter {
  import opened Wrappers
  import opened Text
  import opened LangElements
  import Seqs
  import FileWalker

  /** The comment prefix that marks a class as private. */
  const PrivateMarker := "//@private"

  const FrameFullName := "\"ui/frame\".Frame"

  /** The class comments start with the private marker. */
  predicate IsPrivate(c: Class) {
    StartsWith(c.classComments, PrivateMarker)
  }

  /** Some base class is the view root. */
  predicate ExtendsView(c: Class) {
    Type(ViewFullName) in c.baseClassNames
  }

  /** The filter callback: not private, the view root or one of its descendants,
      and not the frame. */
  function Keep(c: Class): (r: bool)
    ensures r <==> !IsPrivate(c) && (c.fullName == ViewFullName || ExtendsView(c)) && c.fullName != FrameFullName
  {
    if IsPrivate(c) then false
    else
      var viewContaining := Seqs.Filter(c.baseClassNames, (b: Type) => b.fullName == ViewFullName);
      assert ExtendsView(c) ==> Type(ViewFullName) in viewContaining;
      assert |viewContaining| > 0 ==> viewContaining[0] in c.baseClassNames && viewContaining[0] == Type(ViewFullName);
      if c.fullName != ViewFullName && |viewContaining| == 0 then false
      else c.fullName != FrameFullName
  }

  /** `ViewExtendersFilter.filter`: the kept classes, in their original order. */
  function Filter(classes: seq<Class>): (r: seq<Class>)
    ensures Seqs.IsSubsequence(r, classes)
    ensures forall i :: 0 <= i < |r| ==> Keep(r[i]) && r[i] in classes
    ensures forall c :: c in classes && Keep(c) ==> c in r
    ensures forall c {:trigger multiset(r)[c]} :: multiset(r)[c] == if Keep(c) then multiset(classes)[c] else 0
  {
    Seqs.FilterIsSubsequence(classes, Keep);
    Seqs.Filter(classes, Keep)
  }

  /** Filtering what the filter produced changes nothing. */
  lemma FilterIdempotent(classes: seq<Class>)
    ensures Filter(Filter(classes)) == Filter(classes)
  {
    Seqs.FilterIdempotent(classes, Keep);
  }

  /** The view root passes unless it is marked private. */
  lemma ViewKeptUnlessPrivate(c: Class)
    requires c.fullName == ViewFullName
    ensures Keep(c) <==> !IsPrivate(c)
  {
  }

  /** The frame never passes, whatever it extends. */
  lemma FrameRemoved(c: Class)
    requires c.fullName == FrameFullName
    ensures !Keep(c)
  {
  }

  /** A private class never passes. */
  lemma PrivateRemoved(c: Class)
    requires IsPrivate(c)
    ensures !Keep(c)
  {
  }

  /** A tree built through this filter holds only the view root and its descendants. */
  lemma BuildTreeKeepsViews(sources: seq<FileWalker.ClassSource>)
    requires FileWalker.BuildTree(sources, [Filter]).Ok?
    ensures var classes := FileWalker.BuildTree(sources, [Filter]).value.classes;
            forall i :: 0 <= i < |classes| ==> classes[i].fullName == ViewFullName || ExtendsView(classes[i])
  {
    var all := FileWalker.GetAllClasses(sources).value;
    assert FileWalker.ApplyFilters(all, [Filter]) == FileWalker.ApplyFilters(Filter(all), []);
  }

  /** The test's classes: a private view subclass and a class outside the view
      hierarchy are dropped, a public view subclass is kept. */
  lemma FilterExample(button: Class, hidden: Class, other: Class)
    requires button.fullName == "\"ui/button\".Button" && button.baseClassNames == [Type(ViewFullName)]
    requires !IsPrivate(button)
    requires hidden.baseClassNames == [Type(ViewFullName)] && hidden.classComments == "//@private\nclass"
    requires other.fullName != ViewFullName && other.baseClassNames == []
    ensures Filter([hidden, button, other]) == [button]
  {
    assert IsPrivate(hidden) by {
      assert hidden.classComments[..10] == PrivateMarker;
    }
    assert |button.fullName| != |FrameFullName| && |button.fullName| != |ViewFullName|;
    assert Keep(button) && !Keep(hidden) && !Keep(other);
    assert [hidden, button, other][1..] == [button, other];
    assert [button, other][1..] == [other];
    assert [other][1..] == [];
    assert Seqs.Filter([other], Keep) == [];
    assert Seqs.Filter([button, other], Keep) == [button];
  }
}
