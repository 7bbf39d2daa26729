/**
  The schema representation the parser builds: `Schema`, `SimpleType`,
  `ComplexType` (plain or composite), `ComplexMember` and `Attribute`, each as
  an immutable value.
 */
module Xsd {
  import opened Wrappers

  datatype Attribute = Attribute(name: string)

  datatype SimpleType = SimpleType(name: string)

  /**
    A complex type: plain (simple content plus attributes) or composite (a
    sequence of members plus attributes). `name` is absent for an anonymous,
    inline type.
   */
  datatype ComplexType =
    | PlainComplexType(name: Option<string>, attributes: seq<Attribute>)
    | CompositeComplexType(name: Option<string>, attributes: seq<Attribute>, members: seq<ComplexMember>)

  /**
    A declared element. A cardinality of -1 stands for "unbounded"; the type is
    absent when the named type is not among the known complex types.
   */
  datatype ComplexMember = ComplexMember(
    name: string,
    memberType: Option<ComplexType>,
    documentation: Option<string>,
    minCardinality: int,
    maxCardinality: int)

  datatype Schema = Schema(
    documentation: Option<string>,
    simpleTypes: seq<SimpleType>,
    complexTypes: seq<ComplexType>,
    member: Option<ComplexMember>)

  const EmptySchema := Schema(None, [], [], None)

  /** `Schema.getComplexType`: the first known complex type with the given name. */
  function LookupComplexType(types: seq<ComplexType>, name: string): (r: Option<ComplexType>)
    ensures r.None? <==> forall k :: 0 <= k < |types| ==> types[k].name != Some(name)
    ensures r.Some? ==>
      exists k :: 0 <= k < |types| && types[k] == r.value && r.value.name == Some(name)
        && forall j :: 0 <= j < k ==> types[j].name != Some(name)
  {
    if |types| == 0 then None
    else if types[0].name == Some(name) then Some(types[0])
    else LookupComplexType(types[1..], name)
  }

  /** The exceptions the parser raises, as values. */
  datatype ParseError =
      /** A child element the parent does not accept (`UnsupportedOperationException`). */
    | UnsupportedChild(parent: string, child: string)
      /** A complexType with neither simpleContent nor sequence (`UnsupportedOperationException`). */
    | UnsupportedComplexType(name: string)
      /** A required attribute that is absent or empty (raised by `XMLUtil.getAttribute`). */
    | MissingAttribute(element: string, attribute: string)
      /** A cardinality that is not a decimal int (`NumberFormatException`). */
    | NumberFormat(text: string)
}
