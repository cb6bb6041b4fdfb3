/**
 * The xml-writer the schema writers drive, as an append-only log of the calls
 * they make, together with the element tree such a log describes.
 */
module Xml {

  /** One call on the writer. */
  datatype Event =
    | StartElement(name: string)
    | WriteAttribute(key: string, value: string)
    | EndElement

  datatype Attribute = Attribute(key: string, value: string)

  /** An element with its attributes (in writing order) and child elements. */
  datatype Node = Element(name: string, attributes: seq<Attribute>, children: seq<Node>)

  function AttributeEvents(attrs: seq<Attribute>): seq<Event> {
    seq(|attrs|, i requires 0 <= i < |attrs| => WriteAttribute(attrs[i].key, attrs[i].value))
  }

  /** The calls that write `n`: open it, write its attributes, write its children, close it. */
  function Serialize(n: Node): seq<Event>
    decreases n, 1
  {
    [StartElement(n.name)] + AttributeEvents(n.attributes) + SerializeAll(n.children) + [EndElement]
  }

  function SerializeAll(ns: seq<Node>): seq<Event>
    decreases ns, 0
  {
    if |ns| == 0 then [] else Serialize(ns[0]) + SerializeAll(ns[1..])
  }

  lemma {:induction false} SerializeAllAppend(a: seq<Node>, b: seq<Node>)
    ensures SerializeAll(a + b) == SerializeAll(a) + SerializeAll(b)
    decreases |a|
  {
    if |a| == 0 {
      assert a + b == b;
    } else {
      assert (a + b)[0] == a[0];
      assert (a + b)[1..] == a[1..] + b;
      SerializeAllAppend(a[1..], b);
    }
  }

  lemma SerializeAllOne(n: Node)
    ensures SerializeAll([n]) == Serialize(n)
  {
    assert [n][1..] == [];
  }

  /** A one-element list writes that element around the calls of its attributes and children. */
  lemma SerializeAllSingle(name: string, attrs: seq<Attribute>, children: seq<Node>,
                           attrEvents: seq<Event>, inner: seq<Event>)
    requires attrEvents == AttributeEvents(attrs) && inner == SerializeAll(children)
    ensures SerializeAll([Element(name, attrs, children)])
         == [StartElement(name)] + attrEvents + inner + [EndElement]
  {
    SerializeAllOne(Element(name, attrs, children));
  }

  // ---------------------------------------------------------------------------
  // Nesting depth

  function Delta(e: Event): int {
    match e
    case StartElement(_) => 1
    case WriteAttribute(_, _) => 0
    case EndElement => -1
  }

  /** The number of elements left open after the calls `es`. */
  function Depth(es: seq<Event>): int {
    if |es| == 0 then 0 else Depth(es[..|es| - 1]) + Delta(es[|es| - 1])
  }

  /** No prefix of `es` closes more elements than it opened. */
  predicate NeverNegative(es: seq<Event>) {
    forall k :: 0 <= k <= |es| ==> Depth(es[..k]) >= 0
  }

  /** Every element `es` opens it also closes, and it never closes one it did not open. */
  predicate Balanced(es: seq<Event>) {
    NeverNegative(es) && Depth(es) == 0
  }

  lemma {:induction false} DepthAppend(a: seq<Event>, b: seq<Event>)
    ensures Depth(a + b) == Depth(a) + Depth(b)
    decreases |b|
  {
    if |b| == 0 {
      assert a + b == a;
    } else {
      var b' := b[..|b| - 1];
      assert (a + b)[..|a + b| - 1] == a + b';
      assert (a + b)[|a + b| - 1] == b[|b| - 1];
      DepthAppend(a, b');
    }
  }

  lemma {:induction false} BalancedConcat(a: seq<Event>, b: seq<Event>)
    requires Balanced(a) && Balanced(b)
    ensures Balanced(a + b)
  {
    DepthAppend(a, b);
    forall k | 0 <= k <= |a + b| ensures Depth((a + b)[..k]) >= 0 {
      if k <= |a| {
        assert (a + b)[..k] == a[..k];
      } else {
        assert (a + b)[..k] == a + b[..k - |a|];
        assert a[..|a|] == a;
        DepthAppend(a, b[..k - |a|]);
      }
    }
  }

  /** Wrapping balanced calls in one more element keeps them balanced. */
  lemma {:induction false} BalancedWrap(name: string, inner: seq<Event>)
    requires Balanced(inner)
    ensures Balanced([StartElement(name)] + inner + [EndElement])
  {
    var s := [StartElement(name)] + inner + [EndElement];
    assert Depth([StartElement(name)]) == 1 by {
      assert [StartElement(name)][..0] == [];
    }
    assert Depth([EndElement]) == -1 by {
      assert [EndElement][..0] == [];
    }
    DepthAppend([StartElement(name)], inner);
    DepthAppend([StartElement(name)] + inner, [EndElement]);
    forall k | 0 <= k <= |s| ensures Depth(s[..k]) >= 0 {
      if k == 0 {
        assert s[..k] == [];
      } else if k <= |inner| + 1 {
        assert s[..k] == [StartElement(name)] + inner[..k - 1];
        DepthAppend([StartElement(name)], inner[..k - 1]);
      } else {
        assert s[..k] == s;
      }
    }
  }

  lemma {:induction false} AttributeEventsBalanced(attrs: seq<Attribute>)
    ensures Balanced(AttributeEvents(attrs))
    ensures forall k :: 0 <= k <= |attrs| ==> Depth(AttributeEvents(attrs)[..k]) == 0
  {
    var es := AttributeEvents(attrs);
    forall k | 0 <= k <= |attrs| ensures Depth(es[..k]) == 0 {
      AttributeDepthZero(es[..k]);
    }
    assert es[..|es|] == es;
  }

  lemma {:induction false} AttributeDepthZero(es: seq<Event>)
    requires forall i :: 0 <= i < |es| ==> es[i].WriteAttribute?
    ensures Depth(es) == 0
    decreases |es|
  {
    if |es| > 0 {
      AttributeDepthZero(es[..|es| - 1]);
    }
  }

  /** Writing any element tree produces balanced calls. */
  lemma {:induction false} SerializeBalanced(n: Node)
    ensures Balanced(Serialize(n))
    decreases n, 1
  {
    AttributeEventsBalanced(n.attributes);
    SerializeAllBalanced(n.children);
    BalancedConcat(AttributeEvents(n.attributes), SerializeAll(n.children));
    BalancedWrap(n.name, AttributeEvents(n.attributes) + SerializeAll(n.children));
    assert Serialize(n)
        == [StartElement(n.name)] + (AttributeEvents(n.attributes) + SerializeAll(n.children)) + [EndElement];
  }

  lemma {:induction false} SerializeAllBalanced(ns: seq<Node>)
    ensures Balanced(SerializeAll(ns))
    decreases ns, 0
  {
    if |ns| == 0 {
      var e: seq<Event> := [];
      assert e[..0] == e;
    } else {
      SerializeBalanced(ns[0]);
      SerializeAllBalanced(ns[1..]);
      BalancedConcat(Serialize(ns[0]), SerializeAll(ns[1..]));
    }
  }

  // ---------------------------------------------------------------------------
  // endDocument

  function Closes(n: nat): seq<Event> {
    seq(n, _ => EndElement)
  }

  lemma {:induction false} ClosesDepth(n: nat)
    ensures Depth(Closes(n)) == -(n as int)
    decreases n
  {
    if n > 0 {
      assert Closes(n)[..n - 1] == Closes(n - 1);
      ClosesDepth(n - 1);
    }
  }

  /** `endDocument`: closes every element still open. */
  function EndDocument(es: seq<Event>): (r: seq<Event>)
    requires NeverNegative(es)
    ensures Balanced(r)
    ensures |r| >= |es| && r[..|es|] == es
    ensures forall i :: |es| <= i < |r| ==> r[i] == EndElement
  {
    assert es[..|es|] == es;
    var r := es + Closes(Depth(es));
    ClosesDepth(Depth(es));
    DepthAppend(es, Closes(Depth(es)));
    forall k | 0 <= k <= |r| ensures Depth(r[..k]) >= 0 {
      if k <= |es| {
        assert r[..k] == es[..k];
      } else {
        assert r[..k] == es + Closes(k - |es|);
        ClosesDepth(k - |es|);
        DepthAppend(es, Closes(k - |es|));
      }
    }
    assert r[..|es|] == es;
    r
  }

  /** Closing an already balanced log adds nothing. */
  lemma EndDocumentOfBalanced(es: seq<Event>)
    requires Balanced(es)
    ensures EndDocument(es) == es
  {
  }

  /** When one more close would balance the log, `endDocument` is that close. */
  lemma EndDocumentClosesLast(es: seq<Event>)
    requires Balanced(es + [EndElement])
    ensures NeverNegative(es) && EndDocument(es) == es + [EndElement]
  {
    var t := es + [EndElement];
    forall k | 0 <= k <= |es| ensures Depth(es[..k]) >= 0 {
      assert es[..k] == t[..k];
    }
    assert t[..|t| - 1] == es;
    assert Depth(es) == 1;
    assert Closes(1) == [EndElement];
  }
}
