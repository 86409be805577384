/**
 * The namespace stripper and inner-markup builder of the generator, over an
 * XML tree given as a datatype.  `RemoveNamespace` rebuilds an element under
 * its local name, drops namespace-declaration attributes, renames every other
 * attribute to its local name and rebuilds child elements recursively;
 * `GetInnerXml` concatenates what each child of the root contributes.
 * Serialising an element or a comment is a parameter.
 */
module XmlUtils {
  import opened Wrappers

  /** An expanded XML name; the empty namespace is "no namespace". */
  datatype XName = XName(namespace: string, localName: string)

  datatype Attribute = Attribute(name: XName, value: string)

  /** The child nodes an element can hold; `CData` is a text node too. */
  datatype Node =
    | Text(value: string)
    | CData(value: string)
    | Comment(value: string)
    | Instruction(target: string, data: string)
    | Child(element: Element)

  datatype Element = Element(name: XName, attributes: seq<Attribute>, nodes: seq<Node>)

  /** The namespace bound to the `xmlns` prefix. */
  const XmlnsNamespace := "http://www.w3.org/2000/xmlns/"

  /** `XAttribute.IsNamespaceDeclaration`: `xmlns="…"` or `xmlns:p="…"`. */
  predicate IsNamespaceDeclaration(a: Attribute)
  {
    if a.name.namespace == "" then a.name.localName == "xmlns"
    else a.name.namespace == XmlnsNamespace
  }

  /** The attribute loop of `RemoveNamespace`: declarations skipped, the rest renamed to their local names. */
  function StripAttributes(attributes: seq<Attribute>): (r: seq<Attribute>)
    ensures |r| <= |attributes|
    ensures forall i :: 0 <= i < |r| ==> r[i].name.namespace == ""
  {
    if attributes == [] then []
    else
      var a := attributes[0];
      (if IsNamespaceDeclaration(a) then [] else [Attribute(XName("", a.name.localName), a.value)])
      + StripAttributes(attributes[1..])
  }

  /** The element `RemoveNamespace` builds, whether or not adding its attributes would throw. */
  function Strip(e: Element): Element
    decreases e
  {
    Element(XName("", e.name.localName), StripAttributes(e.attributes),
            seq(|e.nodes|, i requires 0 <= i < |e.nodes| => StripNode(e.nodes[i])))
  }

  /** A child element is rebuilt; any other node is added as it is. */
  function StripNode(n: Node): Node
    decreases n
  {
    match n
    case Child(c) => Child(Strip(c))
    case _ => n
  }

  /** Two attributes of a list share a name, which `XElement.Add` refuses. */
  predicate HasDuplicateNames(attributes: seq<Attribute>)
  {
    exists i, j :: 0 <= i < j < |attributes| && attributes[i].name == attributes[j].name
  }

  /**
   * Somewhere in the tree two attributes collapse to the same local name (say
   * `href` and `xlink:href`), so adding the second one throws.
   */
  predicate AddThrows(e: Element)
    decreases e
  {
    HasDuplicateNames(StripAttributes(e.attributes)) ||
    exists i :: 0 <= i < |e.nodes| && e.nodes[i].Child? && AddThrows(e.nodes[i].element)
  }

  /** `XmlUtils.RemoveNamespace`: the rebuilt tree, or `None` where the source throws. */
  function RemoveNamespace(e: Element): (r: Option<Element>)
    ensures r.Some? ==> r.value.name == XName("", e.name.localName)
    ensures r.Some? ==> !HasDuplicateNames(r.value.attributes)
    ensures r.None? <==> AddThrows(e)
  {
    if AddThrows(e) then None else Some(Strip(e))
  }

  // ---------------------------------------------------------------------------
  // Properties of the rebuilt tree.
  // ---------------------------------------------------------------------------

  /** No element and no attribute of the tree carries a namespace. */
  predicate NamespaceFree(e: Element)
    decreases e
  {
    e.name.namespace == "" &&
    (forall a | a in e.attributes :: a.name.namespace == "") &&
    forall i :: 0 <= i < |e.nodes| && e.nodes[i].Child? ==> NamespaceFree(e.nodes[i].element)
  }

  /** No element of the tree holds a namespace-declaration attribute. */
  predicate DeclarationFree(e: Element)
    decreases e
  {
    (forall a | a in e.attributes :: !IsNamespaceDeclaration(a)) &&
    forall i :: 0 <= i < |e.nodes| && e.nodes[i].Child? ==> DeclarationFree(e.nodes[i].element)
  }

  /**
   * No attribute of the tree is named `xmlns` inside some namespace other than
   * the `xmlns` one: renamed to its local name, such an attribute would become
   * a declaration.
   */
  predicate NoForeignXmlns(e: Element)
    decreases e
  {
    (forall a | a in e.attributes :: a.name.localName == "xmlns" ==> IsNamespaceDeclaration(a)) &&
    forall i :: 0 <= i < |e.nodes| && e.nodes[i].Child? ==> NoForeignXmlns(e.nodes[i].element)
  }

  /** The two trees have the same local names and the same shape, and every non-element node is equal. */
  predicate SameShape(e: Element, f: Element)
    decreases e
  {
    e.name.localName == f.name.localName &&
    |e.nodes| == |f.nodes| &&
    forall i :: 0 <= i < |e.nodes| ==>
      if e.nodes[i].Child? then f.nodes[i].Child? && SameShape(e.nodes[i].element, f.nodes[i].element)
      else f.nodes[i] == e.nodes[i]
  }

  /** The attribute loop keeps the order: it works attribute by attribute. */
  lemma {:induction false} StripAttributesAppend(a: seq<Attribute>, b: seq<Attribute>)
    ensures StripAttributes(a + b) == StripAttributes(a) + StripAttributes(b)
  {
    if a == [] {
      assert a + b == b;
    } else {
      assert (a + b)[0] == a[0];
      assert (a + b)[1..] == a[1..] + b;
      StripAttributesAppend(a[1..], b);
    }
  }

  /**
   * Every attribute that is not a declaration is kept under its local name with
   * its value, and every kept attribute comes from one of them.
   */
  lemma {:induction false} StripAttributesKeeps(attributes: seq<Attribute>)
    ensures forall a | a in attributes && !IsNamespaceDeclaration(a) ::
              Attribute(XName("", a.name.localName), a.value) in StripAttributes(attributes)
    ensures forall b | b in StripAttributes(attributes) ::
              exists a | a in attributes :: !IsNamespaceDeclaration(a) && b == Attribute(XName("", a.name.localName), a.value)
  {
    if attributes != [] {
      StripAttributesKeeps(attributes[1..]);
      assert forall a | a in attributes[1..] :: a in attributes;
      assert forall a | a in attributes :: a == attributes[0] || a in attributes[1..];
    }
  }

  /** Every attribute without a namespace that is not called `xmlns` is kept exactly. */
  lemma {:induction false} StripAttributesPlain(attributes: seq<Attribute>)
    requires forall a | a in attributes :: a.name.namespace == "" && a.name.localName != "xmlns"
    ensures StripAttributes(attributes) == attributes
  {
    if attributes != [] {
      assert attributes[0] in attributes;
      assert forall a | a in attributes[1..] :: a in attributes;
      StripAttributesPlain(attributes[1..]);
    }
  }

  /** The rebuilt tree carries no namespace anywhere. */
  lemma {:induction false} StripNamespaceFree(e: Element)
    ensures NamespaceFree(Strip(e))
    decreases e
  {
    var s := Strip(e);
    forall i | 0 <= i < |s.nodes| && s.nodes[i].Child?
      ensures NamespaceFree(s.nodes[i].element)
    {
      assert e.nodes[i] in e.nodes;
      StripNamespaceFree(e.nodes[i].element);
    }
  }

  /** Unless an attribute is named `xmlns` inside a foreign namespace, the rebuilt tree holds no declaration. */
  lemma {:induction false} StripDeclarationFree(e: Element)
    requires NoForeignXmlns(e)
    ensures DeclarationFree(Strip(e))
    decreases e
  {
    var s := Strip(e);
    StripAttributesKeeps(e.attributes);
    forall i | 0 <= i < |s.nodes| && s.nodes[i].Child?
      ensures DeclarationFree(s.nodes[i].element)
    {
      assert e.nodes[i] in e.nodes;
      StripDeclarationFree(e.nodes[i].element);
    }
  }

  /** The rebuilt tree has the input's shape: text, comments and instructions stay in place. */
  lemma {:induction false} StripSameShape(e: Element)
    ensures SameShape(e, Strip(e))
    decreases e
  {
    var s := Strip(e);
    forall i | 0 <= i < |e.nodes| && e.nodes[i].Child?
      ensures s.nodes[i].Child? && SameShape(e.nodes[i].element, s.nodes[i].element)
    {
      assert e.nodes[i] in e.nodes;
      StripSameShape(e.nodes[i].element);
    }
  }

  /** A tree already without namespaces and declarations is rebuilt as it is. */
  lemma {:induction false} StripFixedPoint(e: Element)
    requires NamespaceFree(e) && DeclarationFree(e)
    ensures Strip(e) == e
    decreases e
  {
    StripAttributesPlain(e.attributes);
    var s := Strip(e);
    forall i | 0 <= i < |e.nodes|
      ensures s.nodes[i] == e.nodes[i]
    {
      assert s.nodes[i] == StripNode(e.nodes[i]);
      if e.nodes[i].Child? {
        assert e.nodes[i] in e.nodes;
        StripFixedPoint(e.nodes[i].element);
      }
    }
    assert s.nodes == e.nodes;
  }

  /** Stripping twice is stripping once, unless a foreign `xmlns` attribute turns into a declaration. */
  lemma StripIdempotent(e: Element)
    requires NoForeignXmlns(e)
    ensures Strip(Strip(e)) == Strip(e)
  {
    StripNamespaceFree(e);
    StripDeclarationFree(e);
    StripFixedPoint(Strip(e));
  }

  /** `href` and `xlink:href` on one element collapse to the same name: the rebuild throws. */
  lemma LinkAttributesCollide()
    ensures var e := Element(XName("http://www.w3.org/2000/svg", "use"),
                             [Attribute(XName("", "href"), "#a"),
                              Attribute(XName("http://www.w3.org/1999/xlink", "href"), "#a")], []);
            RemoveNamespace(e) == None
  {
    var e := Element(XName("http://www.w3.org/2000/svg", "use"),
                     [Attribute(XName("", "href"), "#a"),
                      Attribute(XName("http://www.w3.org/1999/xlink", "href"), "#a")], []);
    var stripped := StripAttributes(e.attributes);
    assert stripped[0].name == stripped[1].name;
  }

  // ---------------------------------------------------------------------------
  // Inner markup.
  // ---------------------------------------------------------------------------

  /**
   * What one child of the root contributes: the value of a text node, the
   * serialised comment, the serialised rebuilt element, nothing for any other
   * node; `None` where rebuilding the element throws.
   */
  function NodeXml(n: Node, serialize: Element -> string, serializeComment: string -> string): Option<string>
  {
    match n
    case Text(v) => Some(v)
    case CData(v) => Some(v)
    case Comment(v) => Some(serializeComment(v))
    case Instruction(_, _) => Some("")
    case Child(c) =>
      match RemoveNamespace(c)
      case None => None
      case Some(clean) => Some(serialize(clean))
  }

  /** Two contributions in a row; a failure is final. */
  function Then(a: Option<string>, b: Option<string>): Option<string>
  {
    if a.Some? && b.Some? then Some(a.value + b.value) else None
  }

  /** The inner markup of a sequence of children. */
  function InnerXml(nodes: seq<Node>, serialize: Element -> string, serializeComment: string -> string): Option<string>
  {
    if nodes == [] then Some("")
    else Then(InnerXml(nodes[..|nodes| - 1], serialize, serializeComment),
              NodeXml(nodes[|nodes| - 1], serialize, serializeComment))
  }

  /** Once a prefix of the children fails to serialize, so do all the children. */
  lemma FailedPrefix(nodes: seq<Node>, k: nat, serialize: Element -> string, serializeComment: string -> string)
    requires k <= |nodes| && InnerXml(nodes[..k], serialize, serializeComment).None?
    ensures InnerXml(nodes, serialize, serializeComment).None?
  {
    InnerXmlAppend(nodes[..k], nodes[k..], serialize, serializeComment);
    assert nodes[..k] + nodes[k..] == nodes;
  }

  /** `XmlUtils.GetInnerXml`: one pass over the root's children; `None` where the source throws. */
  method GetInnerXml(svgElement: Element, serialize: Element -> string, serializeComment: string -> string)
    returns (r: Option<string>)
    ensures r == InnerXml(svgElement.nodes, serialize, serializeComment)
  {
    var nodes := svgElement.nodes;
    var sb := "";
    for i := 0 to |nodes|
      invariant InnerXml(nodes[..i], serialize, serializeComment) == Some(sb)
    {
      assert nodes[..i + 1][..i] == nodes[..i];
      assert InnerXml(nodes[..i + 1], serialize, serializeComment) ==
             Then(Some(sb), NodeXml(nodes[i], serialize, serializeComment));
      match nodes[i]
      case Text(v) => sb := sb + v;
      case CData(v) => sb := sb + v;
      case Comment(v) => sb := sb + serializeComment(v);
      case Instruction(_, _) =>
        assert sb + "" == sb;
      case Child(element) =>
        var cleanElement := RemoveNamespace(element);
        if cleanElement.None? {
          FailedPrefix(nodes, i + 1, serialize, serializeComment);
          return None;
        }
        sb := sb + serialize(cleanElement.value);
    }
    assert nodes[..|nodes|] == nodes;
    return Some(sb);
  }

  /** Contributions concatenate: the markup of `a + b` is that of `a` followed by that of `b`. */
  lemma {:induction false} InnerXmlAppend(a: seq<Node>, b: seq<Node>, serialize: Element -> string, serializeComment: string -> string)
    ensures InnerXml(a + b, serialize, serializeComment) ==
            Then(InnerXml(a, serialize, serializeComment), InnerXml(b, serialize, serializeComment))
    decreases |b|
  {
    if b == [] {
      assert a + b == a;
      var x := InnerXml(a, serialize, serializeComment);
      if x.Some? {
        assert x.value + "" == x.value;
      }
    } else {
      var n := |b| - 1;
      assert (a + b)[..|a + b| - 1] == a + b[..n];
      InnerXmlAppend(a, b[..n], serialize, serializeComment);
      var x := InnerXml(a, serialize, serializeComment);
      var y := InnerXml(b[..n], serialize, serializeComment);
      var z := NodeXml(b[n], serialize, serializeComment);
      if x.Some? && y.Some? && z.Some? {
        assert x.value + y.value + z.value == x.value + (y.value + z.value);
      }
    }
  }

  /** Children without elements never fail. */
  lemma {:induction false} InnerXmlFails(nodes: seq<Node>, serialize: Element -> string, serializeComment: string -> string)
    ensures InnerXml(nodes, serialize, serializeComment).None? <==>
            exists i :: 0 <= i < |nodes| && nodes[i].Child? && AddThrows(nodes[i].element)
  {
    if nodes != [] {
      var n := |nodes| - 1;
      InnerXmlFails(nodes[..n], serialize, serializeComment);
      assert forall i :: 0 <= i < n ==> nodes[..n][i] == nodes[i];
    }
  }

  /** An element without children has empty inner markup. */
  lemma EmptyInnerXml(e: Element, serialize: Element -> string, serializeComment: string -> string)
    requires e.nodes == []
    ensures InnerXml(e.nodes, serialize, serializeComment) == Some("")
  {
  }

  /** A text node directly under the root contributes its value as it is, without escaping. */
  lemma TextIsNotEscaped(serialize: Element -> string, serializeComment: string -> string)
    ensures InnerXml([Text("a<b")], serialize, serializeComment) == Some("a<b")
  {
    assert [Text("a<b")][..0] == [];
    assert "" + "a<b" == "a<b";
  }
}
