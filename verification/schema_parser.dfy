/**
  `SchemaParser`: walks the element tree of an XML schema document by local
  name and builds a `Schema`, rejecting children it does not support.

  Each Java loop over `XMLUtil.getChildElements(e)` is a function over the
  index of the next child element; a thrown exception is a `Failure`, raised by
  the first child, in document order, that raises one.
 */
module SchemaParser {
  import opened Wrappers
  import opened Numerals
  import opened Dom
  import opened Xsd

  // ---------------------------------------------------------------------------
  // Leaves

  /**
    `parseOccursAttribute`: an empty or absent value is 1, "unbounded" is -1,
    anything else must be a decimal int.
   */
  function ParseOccurs(e: Elem, name: string): (r: Result<int, ParseError>)
    ensures GetAttribute(e, name) == "" ==> r == Success(1)
    ensures GetAttribute(e, name) == "unbounded" ==> r == Success(-1)
    ensures r.Success? ==> IntMin <= r.value <= IntMax
    ensures r.Failure? ==> r.error == NumberFormat(GetAttribute(e, name)) && ParseInt(GetAttribute(e, name)).None?
  {
    var text := GetAttribute(e, name);
    ParseIntFacts(text);
    if text == "" then Success(1)
    else if text == "unbounded" then Success(-1)
    else match ParseInt(text)
      case Some(v) => Success(v)
      case None => Failure(NumberFormat(text))
  }

  /** `parseAnnotationDocumentation`: the text of the first documentation child, if there is one. */
  function ParseAnnotationDocumentation(e: Elem): (r: Option<string>)
    ensures r.None? <==> forall c :: c in ChildElements(e) ==> c.localName != "documentation"
  {
    match FirstNamed(ChildElements(e), "documentation")
    case None => None
    case Some(d) => Some(TextContent(ElementNode(d)))
  }

  /** `parseSimpleType`: only the name is read. */
  function ParseSimpleType(e: Elem): SimpleType {
    SimpleType(GetAttribute(e, "name"))
  }

  /** `parseAttribute`: the `name` attribute is required. */
  function ParseAttribute(e: Elem): (r: Result<Attribute, ParseError>)
    ensures r.Success? <==> GetAttribute(e, "name") != ""
    ensures r.Success? ==> r.value.name == e.attributes["name"]
    ensures r.Failure? ==> r.error == MissingAttribute(e.nodeName, "name")
  {
    match OptionalAttribute(e, "name")
    case None => Failure(MissingAttribute(e.nodeName, "name"))
    case Some(name) => Success(Attribute(name))
  }

  /** The attributes and members a complex type collects from its children. */
  datatype TypeParts = TypeParts(attributes: seq<Attribute>, members: seq<ComplexMember>)

  /** What an element collects from its children: the last inline type and the last annotation's documentation. */
  datatype ElementParts = ElementParts(inlineType: Option<ComplexType>, annotation: Option<Option<string>>)

  // ---------------------------------------------------------------------------
  // Complex types with simple content

  /**
    The children loop of `parseComplexTypeWithSimpleContent`: simpleContent is
    accepted and ignored, each attribute adds one attribute, anything else is
    rejected.
   */
  function ParsePlainChildren(e: Elem, i: nat): (r: Result<seq<Attribute>, ParseError>)
    requires i <= |ChildElements(e)|
    ensures r.Success? ==> forall k :: i <= k < |ChildElements(e)| ==>
      ChildElements(e)[k].localName in {"simpleContent", "attribute"}
    decreases |ChildElements(e)| - i
  {
    var kids := ChildElements(e);
    if i == |kids| then Success([])
    else
      var c := kids[i];
      if c.localName == "simpleContent" then ParsePlainChildren(e, i + 1)
      else if c.localName == "attribute" then
        var a :- ParseAttribute(c);
        var rest :- ParsePlainChildren(e, i + 1);
        Success([a] + rest)
      else Failure(UnsupportedChild(e.nodeName, c.localName))
  }

  // ---------------------------------------------------------------------------
  // The recursive walk: complex types, sequences and elements

  /**
    `parseComplexType`: a simpleContent child makes a plain type (whether or not
    there is also a sequence), otherwise a sequence child makes a composite type,
    otherwise the type is rejected. `types` are the complex types the schema
    has collected so far.
   */
  function ParseComplexType(e: Elem, types: seq<ComplexType>): (r: Result<ComplexType, ParseError>)
    decreases e, 2, 0
  {
    var name := OptionalAttribute(e, "name");
    if HasNamed(ChildElements(e), "simpleContent") then
      var attributes :- ParsePlainChildren(e, 0);
      Success(PlainComplexType(name, attributes))
    else if HasNamed(ChildElements(e), "sequence") then
      var parts :- ParseCompositeChildren(e, types, 0);
      Success(CompositeComplexType(name, parts.attributes, parts.members))
    else Failure(UnsupportedComplexType(GetAttribute(e, "name")))
  }

  /**
    The children loop of `parseComplexTypeWithSequence`: each sequence adds its
    members, each attribute adds one attribute, anything else is rejected.
   */
  function ParseCompositeChildren(e: Elem, types: seq<ComplexType>, i: nat): (r: Result<TypeParts, ParseError>)
    requires i <= |ChildElements(e)|
    decreases e, 1, |ChildElements(e)| - i
  {
    var kids := ChildElements(e);
    if i == |kids| then Success(TypeParts([], []))
    else
      var c := kids[i];
      if c.localName == "sequence" then
        ChildElementIsChild(e, i);
        var members :- ParseSequence(c, types, 0);
        var rest :- ParseCompositeChildren(e, types, i + 1);
        Success(rest.(members := members + rest.members))
      else if c.localName == "attribute" then
        var a :- ParseAttribute(c);
        var rest :- ParseCompositeChildren(e, types, i + 1);
        Success(rest.(attributes := [a] + rest.attributes))
      else Failure(UnsupportedChild(e.nodeName, c.localName))
  }

  /**
    `parseSequence`: every child must be an element, and each one becomes a
    member, in document order. The error message names the parent 'element',
    as the source's does.
   */
  function ParseSequence(s: Elem, types: seq<ComplexType>, i: nat): (r: Result<seq<ComplexMember>, ParseError>)
    requires i <= |ChildElements(s)|
    decreases s, 1, |ChildElements(s)| - i
  {
    var kids := ChildElements(s);
    if i == |kids| then Success([])
    else
      var c := kids[i];
      if c.localName == "element" then
        ChildElementIsChild(s, i);
        var m :- ParseElement(c, types);
        var rest :- ParseSequence(s, types, i + 1);
        Success([m] + rest)
      else Failure(UnsupportedChild("element", c.localName))
  }

  /**
    `parseElement`: the children give the inline type and the documentation,
    then the type falls back to the required `type` attribute looked up among
    `types`, then the cardinalities are read.
   */
  function ParseElement(e: Elem, types: seq<ComplexType>): (r: Result<ComplexMember, ParseError>)
    decreases e, 2, 0
  {
    var parts :- ParseElementChildren(e, types, 0);
    var memberType :- ResolveType(e, types, parts.inlineType);
    var minCardinality :- ParseOccurs(e, "minOccurs");
    var maxCardinality :- ParseOccurs(e, "maxOccurs");
    var documentation := match parts.annotation case None => None case Some(d) => d;
    Success(ComplexMember(GetAttribute(e, "name"), memberType, documentation, minCardinality, maxCardinality))
  }

  /**
    The children loop of `parseElement`: each complexType child is parsed and
    replaces the inline type found so far, each annotation replaces the
    documentation, anything else is rejected.
   */
  function ParseElementChildren(e: Elem, types: seq<ComplexType>, i: nat): (r: Result<ElementParts, ParseError>)
    requires i <= |ChildElements(e)|
    decreases e, 1, |ChildElements(e)| - i
  {
    var kids := ChildElements(e);
    if i == |kids| then Success(ElementParts(None, None))
    else
      var c := kids[i];
      if c.localName == "complexType" then
        ChildElementIsChild(e, i);
        var t :- ParseComplexType(c, types);
        var rest :- ParseElementChildren(e, types, i + 1);
        Success(rest.(inlineType := if rest.inlineType.Some? then rest.inlineType else Some(t)))
      else if c.localName == "annotation" then
        var rest :- ParseElementChildren(e, types, i + 1);
        Success(rest.(annotation := if rest.annotation.Some? then rest.annotation else Some(ParseAnnotationDocumentation(c))))
      else Failure(UnsupportedChild("element", c.localName))
  }

  /** Without an inline type, the required `type` attribute names a known complex type (absent when unknown). */
  function ResolveType(e: Elem, types: seq<ComplexType>, inlineType: Option<ComplexType>): (r: Result<Option<ComplexType>, ParseError>)
    ensures inlineType.Some? ==> r == Success(inlineType)
    ensures inlineType.None? && GetAttribute(e, "type") == "" ==> r == Failure(MissingAttribute(e.nodeName, "type"))
    ensures inlineType.None? && GetAttribute(e, "type") != "" ==> r == Success(LookupComplexType(types, e.attributes["type"]))
  {
    if inlineType.Some? then Success(inlineType)
    else match OptionalAttribute(e, "type")
      case None => Failure(MissingAttribute(e.nodeName, "type"))
      case Some(typeName) => Success(LookupComplexType(types, typeName))
  }

  // ---------------------------------------------------------------------------
  // The schema

  /** What one child of the schema root contributes to the schema collected so far. */
  function SchemaStep(schema: Schema, c: Elem): (r: Result<Schema, ParseError>)
    ensures r.Failure? <==>
      || c.localName !in {"annotation", "simpleType", "complexType", "element"}
      || (c.localName == "complexType" && ParseComplexType(c, schema.complexTypes).Failure?)
      || (c.localName == "element" && ParseElement(c, schema.complexTypes).Failure?)
  {
    if c.localName == "annotation" then
      Success(schema.(documentation := ParseAnnotationDocumentation(c)))
    else if c.localName == "simpleType" then
      Success(schema.(simpleTypes := schema.simpleTypes + [ParseSimpleType(c)]))
    else if c.localName == "complexType" then
      var t :- ParseComplexType(c, schema.complexTypes);
      Success(schema.(complexTypes := schema.complexTypes + [t]))
    else if c.localName == "element" then
      var m :- ParseElement(c, schema.complexTypes);
      Success(schema.(member := Some(m)))
    else Failure(UnsupportedChild("schema", c.localName))
  }

  /** The loop of `parseSchema` from child `i` on, starting from the schema collected before it. */
  function ParseSchemaFrom(root: Elem, i: nat, schema: Schema): (r: Result<Schema, ParseError>)
    requires i <= |ChildElements(root)|
    ensures r.Success? ==> forall k :: i <= k < |ChildElements(root)| ==>
      ChildElements(root)[k].localName in {"annotation", "simpleType", "complexType", "element"}
    decreases |ChildElements(root)| - i
  {
    var kids := ChildElements(root);
    if i == |kids| then Success(schema)
    else
      var next :- SchemaStep(schema, kids[i]);
      ParseSchemaFrom(root, i + 1, next)
  }

  /**
    `parse(document)` and `parseSchema(root)`: the children of the document
    element, in document order, build the schema. The root's own name is not
    checked.
   */
  function ParseSchema(root: Elem): (r: Result<Schema, ParseError>)
    ensures r.Success? ==> forall k :: 0 <= k < |ChildElements(root)| ==>
      ChildElements(root)[k].localName in {"annotation", "simpleType", "complexType", "element"}
  {
    ParseSchemaFrom(root, 0, EmptySchema)
  }
}
