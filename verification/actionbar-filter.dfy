/** lib/actionbar-filter.ts: the classes the action-bar schema emits. */
module ActionBarFilter {
  import opened LangElements

  const ActionBarFullName := "\"ui/action-bar\".ActionBar"
  const ActionItemFullName := "\"ui/action-bar\".ActionItem"
  const ActionItemBaseFullName := "\"ui/action-bar\".ActionItemBase"
  const BindableFullName := "\"ui/core/bindable\".Bindable"

  /** The fully-qualified names the filter accepts. */
  const Accepted: set<string> := {ActionBarFullName, ActionItemFullName, ActionItemBaseFullName, BindableFullName}

  /** `ActionBarFilter.shouldEmit`: a switch on the fully-qualified name alone. */
  function ShouldEmit(c: Class): (r: bool)
    ensures r <==> c.fullName in Accepted
  {
    if c.fullName == ActionBarFullName then true
    else if c.fullName == ActionItemFullName then true
    else if c.fullName == ActionItemBaseFullName then true
    else if c.fullName == BindableFullName then true
    else false
  }

  /** Two classes with the same fully-qualified name get the same answer,
      whatever their names, comments, bases or properties. */
  lemma ShouldEmitDependsOnFullNameOnly(c: Class, d: Class)
    requires c.fullName == d.fullName
    ensures ShouldEmit(c) == ShouldEmit(d)
  {
  }

  /** The accepted names are four distinct names. */
  lemma AcceptedCount()
    ensures |Accepted| == 4
  {
    assert ActionBarFullName[22] == 'B' && ActionItemFullName[22] == 'I';
    assert ActionItemFullName != ActionItemBaseFullName by {
      assert |ActionItemFullName| != |ActionItemBaseFullName|;
    }
    assert BindableFullName[4] == 'c' && ActionBarFullName[4] == 'a' && ActionItemBaseFullName[4] == 'a';
    assert ActionBarFullName != ActionItemBaseFullName by {
      assert ActionItemBaseFullName[22] == 'I';
    }
    assert BindableFullName != ActionItemFullName by {
      assert BindableFullName[4] != ActionItemFullName[4];
    }
    var s := {ActionBarFullName, ActionItemFullName, ActionItemBaseFullName};
    assert |{ActionBarFullName}| == 1;
    assert |{ActionBarFullName, ActionItemFullName}| == 2;
    assert |s| == 3;
  }

  /** The view root is not emitted. */
  lemma ViewNotEmitted(c: Class)
    requires c.fullName == ViewFullName
    ensures !ShouldEmit(c)
  {
    assert ViewFullName[4] == 'c' && ViewFullName[9] == 'v';
    assert BindableFullName[9] == 'b';
    assert ViewFullName != ActionBarFullName && ViewFullName != ActionItemFullName by {
      assert ActionBarFullName[4] == 'a' && ActionItemFullName[4] == 'a';
    }
    assert ViewFullName != ActionItemBaseFullName by {
      assert ActionItemBaseFullName[4] == 'a';
    }
  }
}
