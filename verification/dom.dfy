/**
  The part of the W3C DOM the schema parser reads: elements with a local name,
  a qualified node name, attributes and child nodes, and text nodes; and the
  `XMLUtil` accessors it reads them with.
 */
module Dom {
  import opened Wrappers

  datatype Node = ElementNode(element: Elem) | TextNode(data: string)

  /** An element; `nodeName` is the qualified name as written (with its prefix, such as "xs:complexType"). */
  datatype Elem = Elem(localName: string, nodeName: string, attributes: map<string, string>, children: seq<Node>)

  /** `XMLUtil.getChildElements`: the element children, in document order. */
  function ChildElements(e: Elem): seq<Elem> {
    ElementsOf(e.children)
  }

  /** A child element is one of the element's child nodes (so it is smaller than the element). */
  lemma ChildElementIsChild(e: Elem, i: nat)
    requires i < |ChildElements(e)|
    ensures ElementNode(ChildElements(e)[i]) in e.children
  {
    ElementsOfMembers(e.children);
  }

  /** The element children are exactly the child nodes that are elements. */
  lemma {:induction false} ElementsOfMembers(nodes: seq<Node>)
    ensures forall c :: c in ElementsOf(nodes) <==> ElementNode(c) in nodes
  {
    if |nodes| > 0 {
      ElementsOfMembers(nodes[1..]);
      assert nodes == [nodes[0]] + nodes[1..];
    }
  }

  /** Some element of `elems` is named `name`. */
  predicate HasNamed(elems: seq<Elem>, name: string) {
    |elems| > 0 && (elems[0].localName == name || HasNamed(elems[1..], name))
  }

  lemma {:induction false} HasNamedIff(elems: seq<Elem>, name: string)
    ensures HasNamed(elems, name) <==> exists k :: 0 <= k < |elems| && elems[k].localName == name
  {
    if |elems| > 0 {
      HasNamedIff(elems[1..], name);
      if elems[0].localName != name && exists k :: 0 <= k < |elems| && elems[k].localName == name {
        var k :| 0 <= k < |elems| && elems[k].localName == name;
        assert elems[1..][k - 1].localName == name;
      }
    }
  }

  function ElementsOf(nodes: seq<Node>): seq<Elem> {
    if |nodes| == 0 then []
    else
      (match nodes[0] case ElementNode(c) => [c] case TextNode(_) => [])
      + ElementsOf(nodes[1..])
  }

  /**
    `Node.getTextContent`: the text of all descendant text nodes, in document
    order. For a text node, its own data.
   */
  function TextContent(n: Node): string {
    match n
    case TextNode(data) => data
    case ElementNode(e) => TextOfChildren(e.children)
  }

  function TextOfChildren(nodes: seq<Node>): string
    decreases nodes
  {
    if |nodes| == 0 then "" else TextContent(nodes[0]) + TextOfChildren(nodes[1..])
  }

  /** `Element.getAttribute`: the attribute's value, or the empty string when the element has no such attribute. */
  function GetAttribute(e: Elem, name: string): string {
    if name in e.attributes then e.attributes[name] else ""
  }

  /** `XMLUtil.getAttribute(element, name, false)`: an empty value counts as absent. */
  function OptionalAttribute(e: Elem, name: string): (r: Option<string>)
    ensures r.None? <==> GetAttribute(e, name) == ""
    ensures r.Some? ==> r.value == e.attributes[name]
  {
    var v := GetAttribute(e, name);
    if v == "" then None else Some(v)
  }

  /** Elements whose local name is `name`, in document order. */
  function Named(elems: seq<Elem>, name: string): (r: seq<Elem>)
    ensures forall c :: c in r <==> c in elems && c.localName == name
    ensures |r| <= |elems|
  {
    if |elems| == 0 then []
    else (if elems[0].localName == name then [elems[0]] else []) + Named(elems[1..], name)
  }

  /** The first of `elems` named `name`: every element before it has another name. */
  function FirstNamed(elems: seq<Elem>, name: string): (r: Option<Elem>)
    ensures r.None? <==> forall k :: 0 <= k < |elems| ==> elems[k].localName != name
    ensures r.Some? ==>
      exists k :: 0 <= k < |elems| && elems[k] == r.value && r.value.localName == name
        && forall j :: 0 <= j < k ==> elems[j].localName != name
  {
    if |elems| == 0 then None
    else if elems[0].localName == name then Some(elems[0])
    else
      FirstNamed(elems[1..], name)
  }

  /** The last of `elems` named `name`: every element after it has another name. */
  function LastNamed(elems: seq<Elem>, name: string): (r: Option<Elem>)
    ensures r.None? <==> forall k :: 0 <= k < |elems| ==> elems[k].localName != name
    ensures r.Some? ==>
      exists k :: 0 <= k < |elems| && elems[k] == r.value && r.value.localName == name
        && forall j :: k < j < |elems| ==> elems[j].localName != name
  {
    if |elems| == 0 then None
    else
      var later := LastNamed(elems[1..], name);
      if later.Some? then later
      else if elems[0].localName == name then Some(elems[0])
      else None
  }
}
