/**
  What the schema parser builds from a document: which children it accepts,
  what each accepted child contributes, which of several children wins, and how
  cardinalities are read.
 */
module SchemaLaws {
  import opened Wrappers
  import opened Numerals
  import opened Dom
  import opened Xsd
  import opened SchemaParser

  /** One attribute per `attribute` element, named by its `name` attribute, in document order. */
  function AttributesOf(elems: seq<Elem>): (r: seq<Attribute>)
    ensures |r| == |elems|
    ensures forall k :: 0 <= k < |elems| ==> r[k].name == GetAttribute(elems[k], "name")
  {
    if |elems| == 0 then [] else [Attribute(GetAttribute(elems[0], "name"))] + AttributesOf(elems[1..])
  }

  /** The number of element children of the given sequences together. */
  function ElementCount(sequences: seq<Elem>): nat {
    if |sequences| == 0 then 0 else |ChildElements(sequences[0])| + ElementCount(sequences[1..])
  }

  /** The documentation of the last annotation among `elems`, or the given default when there is none. */
  function LastDocumentation(elems: seq<Elem>, otherwise: Option<string>): Option<string> {
    match LastNamed(elems, "annotation")
    case None => otherwise
    case Some(a) => ParseAnnotationDocumentation(a)
  }

  lemma NamedFrom(kids: seq<Elem>, i: nat, name: string)
    requires i < |kids|
    ensures Named(kids[i..], name) == (if kids[i].localName == name then [kids[i]] else []) + Named(kids[i + 1..], name)
    ensures LastNamed(kids[i..], name)
      == if LastNamed(kids[i + 1..], name).Some? then LastNamed(kids[i + 1..], name)
         else if kids[i].localName == name then Some(kids[i]) else None
  {
    assert kids[i..][1..] == kids[i + 1..];
  }

  // ---------------------------------------------------------------------------
  // Cardinalities

  /** A cardinality written as a non-negative decimal int is read as that int. */
  lemma OccursOfDecimal(e: Elem, name: string, n: nat)
    requires n <= IntMax && GetAttribute(e, name) == Decimal(n)
    ensures ParseOccurs(e, name) == Success(n)
  {
    ParseIntOfDecimal(n);
  }

  /** A cardinality read from a canonical numeral renders back to that numeral. */
  lemma OccursRendersBack(e: Elem, name: string)
    requires Canonical(GetAttribute(e, name)) && ParseOccurs(e, name).Success?
    ensures ParseOccurs(e, name).value >= 0 && Decimal(ParseOccurs(e, name).value) == GetAttribute(e, name)
  {
    var s := GetAttribute(e, name);
    assert s != "unbounded" by { assert !IsDigit(s[0]) || s[0] == '0' || s != "unbounded"; }
    ParseIntFacts(s);
  }

  /** Text with a character other than a digit after its first one is rejected, unless it is "unbounded". */
  lemma OccursRejectsNonNumeric(e: Elem, name: string, k: nat)
    requires 0 < k < |GetAttribute(e, name)| && !IsDigit(GetAttribute(e, name)[k])
    requires GetAttribute(e, name) != "unbounded"
    ensures ParseOccurs(e, name) == Failure(NumberFormat(GetAttribute(e, name)))
  {
    ParseIntFacts(GetAttribute(e, name));
  }

  /** "-1" is read as the same cardinality as "unbounded", so the two cannot be told apart afterwards. */
  lemma OccursMinusOneIsUnbounded(e: Elem, f: Elem, name: string)
    requires GetAttribute(e, name) == "-1" && GetAttribute(f, name) == "unbounded"
    ensures ParseOccurs(e, name) == ParseOccurs(f, name) == Success(-1)
  {
    ParseIntOfDecimal(1);
    assert "-" + Decimal(1) == "-1";
  }

  /**
    Any other text is read as `Integer.parseInt` reads it: accepted exactly
    when it is an optionally signed decimal numeral within the 32-bit range,
    and then as that numeral's value.
   */
  lemma OccursIsNumeralValue(e: Elem, name: string)
    requires GetAttribute(e, name) != "" && GetAttribute(e, name) != "unbounded"
    ensures ParseOccurs(e, name).Success? <==> NumeralValue(GetAttribute(e, name)).Some?
    ensures ParseOccurs(e, name).Success? ==> NumeralValue(GetAttribute(e, name)) == Some(ParseOccurs(e, name).value)
    ensures ParseOccurs(e, name).Failure? ==> ParseOccurs(e, name).error == NumberFormat(GetAttribute(e, name))
  {
    ParseIntIsNumeralValue(GetAttribute(e, name));
  }

  // ---------------------------------------------------------------------------
  // Annotations

  /** The documentation of an annotation is the text of its first documentation child. */
  lemma DocumentationIsFirst(e: Elem)
    ensures ParseAnnotationDocumentation(e).Some? ==>
      exists k :: 0 <= k < |ChildElements(e)| && ChildElements(e)[k].localName == "documentation"
        && (forall j :: 0 <= j < k ==> ChildElements(e)[j].localName != "documentation")
        && ParseAnnotationDocumentation(e).value == TextContent(ElementNode(ChildElements(e)[k]))
  {
  }

  // ---------------------------------------------------------------------------
  // Sequences

  /** Every child of `s` from `i` on is an element that parses. */
  ghost predicate ElementsParse(s: Elem, types: seq<ComplexType>, i: nat) {
    forall k :: i <= k < |ChildElements(s)| ==>
      ChildElements(s)[k].localName == "element" && ParseElement(ChildElements(s)[k], types).Success?
  }

  /**
    A sequence is accepted exactly when all its children are elements that parse,
    and then its members are those elements' parses, one each, in document order.
   */
  lemma {:induction false} SequenceMembers(s: Elem, types: seq<ComplexType>, i: nat)
    requires i <= |ChildElements(s)|
    ensures ParseSequence(s, types, i).Success? <==> ElementsParse(s, types, i)
    decreases |ChildElements(s)| - i
  {
    var kids := ChildElements(s);
    if i < |kids| {
      SequenceMembers(s, types, i + 1);
      SequenceStepAccepts(s, types, i);
      ElementsParseStep(s, types, i);
    }
  }

  lemma SequenceStepAccepts(s: Elem, types: seq<ComplexType>, i: nat)
    requires i < |ChildElements(s)|
    ensures var c := ChildElements(s)[i];
      ParseSequence(s, types, i).Success? <==>
        c.localName == "element" && ParseElement(c, types).Success? && ParseSequence(s, types, i + 1).Success?
  {
  }

  lemma ElementsParseStep(s: Elem, types: seq<ComplexType>, i: nat)
    requires i < |ChildElements(s)|
    ensures var c := ChildElements(s)[i];
      ElementsParse(s, types, i) <==>
        c.localName == "element" && ParseElement(c, types).Success? && ElementsParse(s, types, i + 1)
  {
  }

  /** An accepted sequence has one member per child element. */
  lemma {:induction false} SequenceLength(s: Elem, types: seq<ComplexType>, i: nat)
    requires i <= |ChildElements(s)| && ParseSequence(s, types, i).Success?
    ensures |ParseSequence(s, types, i).value| == |ChildElements(s)| - i
    decreases |ChildElements(s)| - i
  {
    if i < |ChildElements(s)| {
      SequenceLength(s, types, i + 1);
    }
  }

  lemma SequenceHead(s: Elem, types: seq<ComplexType>, i: nat)
    requires i < |ChildElements(s)| && ParseSequence(s, types, i).Success?
    ensures |ParseSequence(s, types, i).value| == |ChildElements(s)| - i
    ensures ParseElement(ChildElements(s)[i], types) == Success(ParseSequence(s, types, i).value[0])
  {
    SequenceLength(s, types, i);
  }

  lemma SequenceTail(s: Elem, types: seq<ComplexType>, i: nat, k: nat)
    requires i < k < |ChildElements(s)| && ParseSequence(s, types, i).Success?
    ensures ParseSequence(s, types, i + 1).Success?
    ensures |ParseSequence(s, types, i).value| == |ChildElements(s)| - i
    ensures |ParseSequence(s, types, i + 1).value| == |ChildElements(s)| - (i + 1)
    ensures ParseSequence(s, types, i).value[k - i] == ParseSequence(s, types, i + 1).value[k - (i + 1)]
  {
    SequenceLength(s, types, i);
    SequenceLength(s, types, i + 1);
  }

  /** Member `k - i` of the sequence parsed from child `i` on is the first member of the one parsed from child `k` on. */
  lemma {:induction false} SequenceShift(s: Elem, types: seq<ComplexType>, i: nat, k: nat)
    requires i <= k < |ChildElements(s)| && ParseSequence(s, types, i).Success?
    ensures ParseSequence(s, types, k).Success?
    ensures |ParseSequence(s, types, i).value| == |ChildElements(s)| - i
    ensures |ParseSequence(s, types, k).value| == |ChildElements(s)| - k
    ensures ParseSequence(s, types, i).value[k - i] == ParseSequence(s, types, k).value[0]
    decreases k - i
  {
    if i < k {
      SequenceTail(s, types, i, k);
      SequenceShift(s, types, i + 1, k);
    } else {
      SequenceLength(s, types, i);
    }
  }

  /** The members of an accepted sequence are the parses of its elements, one each, in document order. */
  lemma SequenceValues(s: Elem, types: seq<ComplexType>, i: nat, k: nat)
    requires i <= k < |ChildElements(s)| && ParseSequence(s, types, i).Success?
    ensures |ParseSequence(s, types, i).value| == |ChildElements(s)| - i
    ensures ParseElement(ChildElements(s)[k], types) == Success(ParseSequence(s, types, i).value[k - i])
  {
    SequenceShift(s, types, i, k);
    SequenceHead(s, types, k);
  }

  // ---------------------------------------------------------------------------
  // Complex types

  /** A child a plain complex type accepts: simpleContent, or a named attribute. */
  predicate PlainChildOk(c: Elem) {
    c.localName == "simpleContent" || (c.localName == "attribute" && GetAttribute(c, "name") != "")
  }

  lemma PlainStep(e: Elem, i: nat)
    requires i < |ChildElements(e)|
    ensures var c := ChildElements(e)[i];
      var r := ParsePlainChildren(e, i);
      var rest := ParsePlainChildren(e, i + 1);
      && (r.Success? <==> PlainChildOk(c) && rest.Success?)
      && (r.Success? && c.localName == "simpleContent" ==> r.value == rest.value)
      && (r.Success? && c.localName == "attribute" ==> r.value == [Attribute(GetAttribute(c, "name"))] + rest.value)
  {
  }

  /** The children of a plain complex type are accepted exactly when each is simpleContent or a named attribute. */
  lemma {:induction false} PlainAccepts(e: Elem, i: nat)
    requires i <= |ChildElements(e)|
    ensures ParsePlainChildren(e, i).Success? <==>
      forall k :: i <= k < |ChildElements(e)| ==> PlainChildOk(ChildElements(e)[k])
    decreases |ChildElements(e)| - i
  {
    if i < |ChildElements(e)| {
      PlainAccepts(e, i + 1);
      PlainStep(e, i);
    }
  }

  /** The attributes of an accepted plain complex type are its attribute children, in document order. */
  lemma {:induction false} PlainAttributes(e: Elem, i: nat)
    requires i <= |ChildElements(e)| && ParsePlainChildren(e, i).Success?
    ensures ParsePlainChildren(e, i).value == AttributesOf(Named(ChildElements(e)[i..], "attribute"))
    decreases |ChildElements(e)| - i
  {
    var kids := ChildElements(e);
    if i < |kids| {
      var c := kids[i];
      PlainStep(e, i);
      PlainAttributes(e, i + 1);
      NamedFrom(kids, i, "attribute");
      if c.localName == "attribute" {
        assert ([c] + Named(kids[i + 1..], "attribute"))[1..] == Named(kids[i + 1..], "attribute");
      }
    } else {
      assert kids[i..] == [];
    }
  }

  /** A child a composite complex type accepts: a sequence that parses, or a named attribute. */
  ghost predicate CompositeChildOk(c: Elem, types: seq<ComplexType>) {
    || (c.localName == "sequence" && ParseSequence(c, types, 0).Success?)
    || (c.localName == "attribute" && GetAttribute(c, "name") != "")
  }

  lemma CompositeStepAccepts(e: Elem, types: seq<ComplexType>, i: nat)
    requires i < |ChildElements(e)|
    ensures ParseCompositeChildren(e, types, i).Success? <==>
      CompositeChildOk(ChildElements(e)[i], types) && ParseCompositeChildren(e, types, i + 1).Success?
  {
  }

  lemma CompositeStepAttributes(e: Elem, types: seq<ComplexType>, i: nat)
    requires i < |ChildElements(e)| && ParseCompositeChildren(e, types, i).Success?
    ensures var c := ChildElements(e)[i];
      var rest := ParseCompositeChildren(e, types, i + 1);
      && rest.Success?
      && ParseCompositeChildren(e, types, i).value.attributes
         == (if c.localName == "attribute" then [Attribute(GetAttribute(c, "name"))] else []) + rest.value.attributes
  {
  }

  lemma CompositeStepMembers(e: Elem, types: seq<ComplexType>, i: nat)
    requires i < |ChildElements(e)| && ParseCompositeChildren(e, types, i).Success?
    ensures var c := ChildElements(e)[i];
      var rest := ParseCompositeChildren(e, types, i + 1);
      && rest.Success?
      && (c.localName == "sequence" ==>
            && ParseSequence(c, types, 0).Success?
            && |ParseCompositeChildren(e, types, i).value.members| == |ChildElements(c)| + |rest.value.members|)
      && (c.localName != "sequence" ==> ParseCompositeChildren(e, types, i).value.members == rest.value.members)
  {
    var c := ChildElements(e)[i];
    if c.localName == "sequence" {
      SequenceLength(c, types, 0);
    }
  }

  /** The children of a composite complex type are accepted exactly when each is a sequence that parses or a named attribute. */
  lemma {:induction false} CompositeAccepts(e: Elem, types: seq<ComplexType>, i: nat)
    requires i <= |ChildElements(e)|
    ensures ParseCompositeChildren(e, types, i).Success? <==>
      forall k :: i <= k < |ChildElements(e)| ==> CompositeChildOk(ChildElements(e)[k], types)
    decreases |ChildElements(e)| - i
  {
    var kids := ChildElements(e);
    if i < |kids| {
      CompositeAccepts(e, types, i + 1);
      CompositeStepAccepts(e, types, i);
    }
  }

  /**
    The attributes of an accepted composite complex type are its attribute
    children, in document order, and it has one member per element of its
    sequences.
   */
  lemma {:induction false} CompositeParts(e: Elem, types: seq<ComplexType>, i: nat)
    requires i <= |ChildElements(e)| && ParseCompositeChildren(e, types, i).Success?
    ensures ParseCompositeChildren(e, types, i).value.attributes == AttributesOf(Named(ChildElements(e)[i..], "attribute"))
    ensures |ParseCompositeChildren(e, types, i).value.members| == ElementCount(Named(ChildElements(e)[i..], "sequence"))
  {
    CompositeAttributes(e, types, i);
    CompositeMembers(e, types, i);
  }

  lemma {:induction false} CompositeAttributes(e: Elem, types: seq<ComplexType>, i: nat)
    requires i <= |ChildElements(e)| && ParseCompositeChildren(e, types, i).Success?
    ensures ParseCompositeChildren(e, types, i).value.attributes == AttributesOf(Named(ChildElements(e)[i..], "attribute"))
    decreases |ChildElements(e)| - i
  {
    var kids := ChildElements(e);
    if i < |kids| {
      var c := kids[i];
      CompositeStepAttributes(e, types, i);
      CompositeAttributes(e, types, i + 1);
      NamedFrom(kids, i, "attribute");
      if c.localName == "attribute" {
        AttributesOfCons(c, Named(kids[i + 1..], "attribute"));
      }
    } else {
      assert kids[i..] == [];
    }
  }

  lemma AttributesOfCons(c: Elem, rest: seq<Elem>)
    ensures AttributesOf([c] + rest) == [Attribute(GetAttribute(c, "name"))] + AttributesOf(rest)
  {
    assert ([c] + rest)[1..] == rest;
  }

  lemma ElementCountCons(c: Elem, rest: seq<Elem>)
    ensures ElementCount([c] + rest) == |ChildElements(c)| + ElementCount(rest)
  {
    assert ([c] + rest)[1..] == rest;
  }

  lemma {:induction false} CompositeMembers(e: Elem, types: seq<ComplexType>, i: nat)
    requires i <= |ChildElements(e)| && ParseCompositeChildren(e, types, i).Success?
    ensures |ParseCompositeChildren(e, types, i).value.members| == ElementCount(Named(ChildElements(e)[i..], "sequence"))
    decreases |ChildElements(e)| - i
  {
    var kids := ChildElements(e);
    if i < |kids| {
      var c := kids[i];
      var later := Named(kids[i + 1..], "sequence");
      CompositeStepMembers(e, types, i);
      CompositeMembers(e, types, i + 1);
      NamedFrom(kids, i, "sequence");
      if c.localName == "sequence" {
        ElementCountCons(c, later);
      } else {
        assert Named(kids[i..], "sequence") == later;
      }
    } else {
      assert kids[i..] == [];
    }
  }

  /** The members the given sequences yield together, in document order; a sequence that fails yields none. */
  function MembersOfSequences(sequences: seq<Elem>, types: seq<ComplexType>): seq<ComplexMember> {
    if |sequences| == 0 then []
    else
      var first := ParseSequence(sequences[0], types, 0);
      (if first.Success? then first.value else []) + MembersOfSequences(sequences[1..], types)
  }

  lemma MembersOfSequencesCons(c: Elem, rest: seq<Elem>, types: seq<ComplexType>)
    requires ParseSequence(c, types, 0).Success?
    ensures MembersOfSequences([c] + rest, types) == ParseSequence(c, types, 0).value + MembersOfSequences(rest, types)
  {
    assert ([c] + rest)[1..] == rest;
  }

  lemma CompositeStepMemberValues(e: Elem, types: seq<ComplexType>, i: nat)
    requires i < |ChildElements(e)| && ParseCompositeChildren(e, types, i).Success?
    ensures ParseCompositeChildren(e, types, i + 1).Success?
    ensures ChildElements(e)[i].localName == "sequence" ==>
      && ParseSequence(ChildElements(e)[i], types, 0).Success?
      && ParseCompositeChildren(e, types, i).value.members
         == ParseSequence(ChildElements(e)[i], types, 0).value + ParseCompositeChildren(e, types, i + 1).value.members
    ensures ChildElements(e)[i].localName != "sequence" ==>
      ParseCompositeChildren(e, types, i).value.members == ParseCompositeChildren(e, types, i + 1).value.members
  {
  }

  /**
    The members of an accepted composite complex type are the members of its
    sequences, one sequence after another in document order.
   */
  lemma {:induction false} CompositeMemberValues(e: Elem, types: seq<ComplexType>, i: nat)
    requires i <= |ChildElements(e)| && ParseCompositeChildren(e, types, i).Success?
    ensures ParseCompositeChildren(e, types, i).value.members == MembersOfSequences(Named(ChildElements(e)[i..], "sequence"), types)
    decreases |ChildElements(e)| - i
  {
    var kids := ChildElements(e);
    if i < |kids| {
      var c := kids[i];
      CompositeStepMemberValues(e, types, i);
      CompositeMemberValues(e, types, i + 1);
      NamedFrom(kids, i, "sequence");
      if c.localName == "sequence" {
        MembersOfSequencesCons(c, Named(kids[i + 1..], "sequence"), types);
      } else {
        assert Named(kids[i..], "sequence") == Named(kids[i + 1..], "sequence");
      }
    } else {
      assert kids[i..] == [];
    }
  }

  /** An accepted complex type without simpleContent holds the members of all its sequences, in document order. */
  lemma ComplexTypeMembers(e: Elem, types: seq<ComplexType>)
    requires ParseComplexType(e, types).Success? && !HasNamed(ChildElements(e), "simpleContent")
    ensures ParseComplexType(e, types).value.CompositeComplexType?
    ensures ParseComplexType(e, types).value.members == MembersOfSequences(Named(ChildElements(e), "sequence"), types)
  {
    assert ChildElements(e)[0..] == ChildElements(e);
    CompositeMemberValues(e, types, 0);
  }

  /**
    A complex type with a simpleContent child is plain, with the attribute
    children as its attributes; otherwise one with a sequence child is
    composite, with the attribute children as its attributes and one member per
    element of its sequences; one with neither is rejected.
   */
  lemma ComplexTypeContents(e: Elem, types: seq<ComplexType>)
    ensures var r := ParseComplexType(e, types);
      var kids := ChildElements(e);
      && (r.Success? && HasNamed(kids, "simpleContent") ==>
            r.value == PlainComplexType(OptionalAttribute(e, "name"), AttributesOf(Named(kids, "attribute"))))
      && (r.Success? && !HasNamed(kids, "simpleContent") ==>
            && r.value.CompositeComplexType?
            && r.value.attributes == AttributesOf(Named(kids, "attribute"))
            && |r.value.members| == ElementCount(Named(kids, "sequence")))
      && (!HasNamed(kids, "simpleContent") && !HasNamed(kids, "sequence") ==>
            r == Failure(UnsupportedComplexType(GetAttribute(e, "name"))))
  {
    var kids := ChildElements(e);
    assert kids[0..] == kids;
    if HasNamed(kids, "simpleContent") && ParsePlainChildren(e, 0).Success? {
      PlainAttributes(e, 0);
    } else if HasNamed(kids, "sequence") && ParseCompositeChildren(e, types, 0).Success? {
      CompositeParts(e, types, 0);
    }
  }

  /**
    A simpleContent child selects the plain parse, which does not accept a
    sequence child: a complex type with both is rejected.
   */
  lemma SimpleContentWithSequenceRejected(e: Elem, types: seq<ComplexType>)
    requires HasNamed(ChildElements(e), "simpleContent")
    requires HasNamed(ChildElements(e), "sequence")
    ensures ParseComplexType(e, types).Failure?
  {
    var kids := ChildElements(e);
    HasNamedIff(kids, "sequence");
    var k :| 0 <= k < |kids| && kids[k].localName == "sequence";
    PlainAccepts(e, 0);
    assert !PlainChildOk(kids[k]);
  }

  // ---------------------------------------------------------------------------
  // Elements

  /** A child an element accepts: an annotation, or a complexType that parses. */
  ghost predicate ElementChildOk(c: Elem, types: seq<ComplexType>) {
    c.localName == "annotation" || (c.localName == "complexType" && ParseComplexType(c, types).Success?)
  }

  lemma ElementStepAccepts(e: Elem, types: seq<ComplexType>, i: nat)
    requires i < |ChildElements(e)|
    ensures ParseElementChildren(e, types, i).Success? <==>
      ElementChildOk(ChildElements(e)[i], types) && ParseElementChildren(e, types, i + 1).Success?
  {
  }

  lemma ElementStep(e: Elem, types: seq<ComplexType>, i: nat)
    requires i < |ChildElements(e)|
    ensures var c := ChildElements(e)[i];
      var r := ParseElementChildren(e, types, i);
      var rest := ParseElementChildren(e, types, i + 1);
      && (r.Success? <==> ElementChildOk(c, types) && rest.Success?)
      && (r.Success? ==>
            r.value.inlineType == (if rest.value.inlineType.Some? then rest.value.inlineType
                            else if c.localName == "complexType" then Some(ParseComplexType(c, types).value)
                            else None))
      && (r.Success? ==>
            r.value.annotation == (if rest.value.annotation.Some? then rest.value.annotation
                            else if c.localName == "annotation" then Some(ParseAnnotationDocumentation(c))
                            else None))
  {
  }

  /** The children of an element are accepted exactly when each is an annotation or a complexType that parses. */
  lemma {:induction false} ElementChildrenAccepted(e: Elem, types: seq<ComplexType>, i: nat)
    requires i <= |ChildElements(e)|
    ensures ParseElementChildren(e, types, i).Success? <==>
      forall k :: i <= k < |ChildElements(e)| ==> ElementChildOk(ChildElements(e)[k], types)
    decreases |ChildElements(e)| - i
  {
    if i < |ChildElements(e)| {
      ElementChildrenAccepted(e, types, i + 1);
      ElementStepAccepts(e, types, i);
    }
  }

  /** Of an element's children, the last complexType gives the inline type. */
  lemma {:induction false} ElementInlineType(e: Elem, types: seq<ComplexType>, i: nat)
    requires i <= |ChildElements(e)| && ParseElementChildren(e, types, i).Success?
    ensures var r := ParseElementChildren(e, types, i);
      match LastNamed(ChildElements(e)[i..], "complexType")
      case None => r.value.inlineType.None?
      case Some(c) => ParseComplexType(c, types).Success? && r.value.inlineType == Some(ParseComplexType(c, types).value)
    decreases |ChildElements(e)| - i
  {
    var kids := ChildElements(e);
    if i < |kids| {
      ElementStep(e, types, i);
      ElementInlineType(e, types, i + 1);
      NamedFrom(kids, i, "complexType");
    } else {
      assert kids[i..] == [];
    }
  }

  /** Of an element's children, the last annotation gives the documentation. */
  lemma {:induction false} ElementAnnotation(e: Elem, types: seq<ComplexType>, i: nat)
    requires i <= |ChildElements(e)| && ParseElementChildren(e, types, i).Success?
    ensures var r := ParseElementChildren(e, types, i);
      match LastNamed(ChildElements(e)[i..], "annotation")
      case None => r.value.annotation.None?
      case Some(a) => r.value.annotation == Some(ParseAnnotationDocumentation(a))
    decreases |ChildElements(e)| - i
  {
    var kids := ChildElements(e);
    if i < |kids| {
      ElementStep(e, types, i);
      ElementAnnotation(e, types, i + 1);
      NamedFrom(kids, i, "annotation");
    } else {
      assert kids[i..] == [];
    }
  }

  /**
    An element is accepted exactly when its children are, its type resolves and
    both cardinalities parse; its name is its `name` attribute and its
    cardinalities are the parsed `minOccurs` and `maxOccurs`.
   */
  lemma ElementHeader(e: Elem, types: seq<ComplexType>)
    ensures var r := ParseElement(e, types);
      var children := ParseElementChildren(e, types, 0);
      && (r.Success? <==>
            && children.Success?
            && ResolveType(e, types, children.value.inlineType).Success?
            && ParseOccurs(e, "minOccurs").Success?
            && ParseOccurs(e, "maxOccurs").Success?)
      && (r.Success? ==>
            && r.value.name == GetAttribute(e, "name")
            && r.value.memberType == ResolveType(e, types, children.value.inlineType).value
            && r.value.minCardinality == ParseOccurs(e, "minOccurs").value
            && r.value.maxCardinality == ParseOccurs(e, "maxOccurs").value
            && r.value.documentation == (match children.value.annotation case None => None case Some(d) => d))
  {
  }

  /**
    An element's type is its last inline complexType; without one, the required
    `type` attribute names it among the known types. Its documentation is the
    last annotation's.
   */
  lemma ElementContents(e: Elem, types: seq<ComplexType>)
    ensures var r := ParseElement(e, types);
      var kids := ChildElements(e);
      r.Success? ==>
        && (match LastNamed(kids, "complexType")
            case Some(c) => ParseComplexType(c, types).Success? && r.value.memberType == Some(ParseComplexType(c, types).value)
            case None => GetAttribute(e, "type") != "" && r.value.memberType == LookupComplexType(types, e.attributes["type"]))
        && r.value.documentation == LastDocumentation(kids, None)
  {
    var kids := ChildElements(e);
    assert kids[0..] == kids;
    ElementHeader(e, types);
    if ParseElement(e, types).Success? {
      ElementInlineType(e, types, 0);
      ElementAnnotation(e, types, 0);
    }
  }

  /** An element with acceptable children, no inline type and no `type` attribute is rejected for the missing attribute. */
  lemma ElementWithoutType(e: Elem, types: seq<ComplexType>)
    requires ParseElementChildren(e, types, 0).Success?
    requires forall c :: c in ChildElements(e) ==> c.localName != "complexType"
    requires GetAttribute(e, "type") == ""
    ensures ParseElement(e, types) == Failure(MissingAttribute(e.nodeName, "type"))
  {
    var kids := ChildElements(e);
    assert kids[0..] == kids;
    ElementInlineType(e, types, 0);
    ElementHeader(e, types);
  }

  // ---------------------------------------------------------------------------
  // The schema

  lemma SchemaFromStep(root: Elem, i: nat, schema: Schema)
    requires i < |ChildElements(root)|
    ensures var step := SchemaStep(schema, ChildElements(root)[i]);
      && (step.Failure? ==> ParseSchemaFrom(root, i, schema) == Failure(step.error))
      && (step.Success? ==> ParseSchemaFrom(root, i, schema) == ParseSchemaFrom(root, i + 1, step.value))
  {
  }

  /** What one accepted child adds to the schema; everything else is kept. */
  lemma StepFields(schema: Schema, c: Elem)
    requires SchemaStep(schema, c).Success?
    ensures var next := SchemaStep(schema, c).value;
      && next.simpleTypes == schema.simpleTypes + (if c.localName == "simpleType" then [ParseSimpleType(c)] else [])
      && next.complexTypes == schema.complexTypes
           + (if c.localName == "complexType" then [ParseComplexType(c, schema.complexTypes).value] else [])
      && next.documentation == (if c.localName == "annotation" then ParseAnnotationDocumentation(c) else schema.documentation)
      && next.member == (if c.localName == "element" then Some(ParseElement(c, schema.complexTypes).value) else schema.member)
  {
  }

  /** From child `i` on, the schema gains one simple type per simpleType child, in document order. */
  lemma {:induction false} SchemaSimpleTypes(root: Elem, i: nat, schema: Schema)
    requires i <= |ChildElements(root)| && ParseSchemaFrom(root, i, schema).Success?
    ensures ParseSchemaFrom(root, i, schema).value.simpleTypes
      == schema.simpleTypes + SimpleTypesOf(Named(ChildElements(root)[i..], "simpleType"))
    decreases |ChildElements(root)| - i
  {
    var kids := ChildElements(root);
    if i < |kids| {
      var c := kids[i];
      var later := Named(kids[i + 1..], "simpleType");
      SchemaFromStep(root, i, schema);
      var next := SchemaStep(schema, c).value;
      StepFields(schema, c);
      SchemaSimpleTypes(root, i + 1, next);
      NamedFrom(kids, i, "simpleType");
      if c.localName == "simpleType" {
        SimpleTypesCons(schema.simpleTypes, c, later);
      } else {
        assert next.simpleTypes == schema.simpleTypes;
        assert Named(kids[i..], "simpleType") == later;
      }
    } else {
      assert kids[i..] == [];
    }
  }

  lemma SimpleTypesCons(before: seq<SimpleType>, c: Elem, later: seq<Elem>)
    ensures before + [ParseSimpleType(c)] + SimpleTypesOf(later) == before + SimpleTypesOf([c] + later)
  {
    assert ([c] + later)[1..] == later;
  }

  /** From child `i` on, the schema keeps its complex types and appends one per complexType child. */
  lemma {:induction false} SchemaComplexTypes(root: Elem, i: nat, schema: Schema)
    requires i <= |ChildElements(root)| && ParseSchemaFrom(root, i, schema).Success?
    ensures var types := ParseSchemaFrom(root, i, schema).value.complexTypes;
      && |types| == |schema.complexTypes| + |Named(ChildElements(root)[i..], "complexType")|
      && types[..|schema.complexTypes|] == schema.complexTypes
    decreases |ChildElements(root)| - i
  {
    var kids := ChildElements(root);
    if i < |kids| {
      var c := kids[i];
      SchemaFromStep(root, i, schema);
      var next := SchemaStep(schema, c).value;
      StepFields(schema, c);
      SchemaComplexTypes(root, i + 1, next);
      NamedFrom(kids, i, "complexType");
      var types := ParseSchemaFrom(root, i + 1, next).value.complexTypes;
      assert types[..|schema.complexTypes|] == types[..|next.complexTypes|][..|schema.complexTypes|];
    } else {
      assert kids[i..] == [];
    }
  }

  /** From child `i` on, the documentation is the last annotation's, or the one the schema had. */
  lemma {:induction false} SchemaDocumentation(root: Elem, i: nat, schema: Schema)
    requires i <= |ChildElements(root)| && ParseSchemaFrom(root, i, schema).Success?
    ensures ParseSchemaFrom(root, i, schema).value.documentation
      == LastDocumentation(ChildElements(root)[i..], schema.documentation)
    decreases |ChildElements(root)| - i
  {
    var kids := ChildElements(root);
    if i < |kids| {
      var c := kids[i];
      SchemaFromStep(root, i, schema);
      var next := SchemaStep(schema, c).value;
      StepFields(schema, c);
      SchemaDocumentation(root, i + 1, next);
      NamedFrom(kids, i, "annotation");
    } else {
      assert kids[i..] == [];
    }
  }

  /** From child `i` on, the member is the last element's, or the one the schema had. */
  lemma {:induction false} SchemaMember(root: Elem, i: nat, schema: Schema)
    requires i <= |ChildElements(root)| && ParseSchemaFrom(root, i, schema).Success?
    ensures var member := ParseSchemaFrom(root, i, schema).value.member;
      match LastNamed(ChildElements(root)[i..], "element")
      case None => member == schema.member
      case Some(x) => member.Some? && member.value.name == GetAttribute(x, "name")
    decreases |ChildElements(root)| - i
  {
    var kids := ChildElements(root);
    if i < |kids| {
      var c := kids[i];
      SchemaFromStep(root, i, schema);
      var next := SchemaStep(schema, c).value;
      StepFields(schema, c);
      SchemaMember(root, i + 1, next);
      NamedFrom(kids, i, "element");
      if c.localName == "element" {
        ElementHeader(c, schema.complexTypes);
      }
    } else {
      assert kids[i..] == [];
    }
  }

  /**
    How many complex types a walk that starts at child `i` with `schema` has
    collected when it reaches child `k`: the schema's own, and one per
    complexType child in between.
   */
  function TypesBefore(root: Elem, i: nat, schema: Schema, k: nat): nat
    requires i <= k <= |ChildElements(root)|
  {
    |schema.complexTypes| + |Named(ChildElements(root)[i..k], "complexType")|
  }

  /** Taking the first of the children from `i` to `k` off the front. */
  lemma NamedSliceFrom(kids: seq<Elem>, i: nat, k: nat, name: string)
    requires i < k <= |kids|
    ensures Named(kids[i..k], name) == (if kids[i].localName == name then [kids[i]] else []) + Named(kids[i + 1..k], name)
  {
    assert kids[i..k][1..] == kids[i + 1..k];
  }

  /** A schema step appends at most one complex type, and only for a complexType child. */
  lemma StepTypesGrow(schema: Schema, c: Elem)
    requires SchemaStep(schema, c).Success?
    ensures var next := SchemaStep(schema, c).value.complexTypes;
      && |next| == |schema.complexTypes| + (if c.localName == "complexType" then 1 else 0)
      && next[..|schema.complexTypes|] == schema.complexTypes
  {
  }

  /** A complexType child appends its parse against the types collected so far. */
  lemma StepAddsType(schema: Schema, c: Elem)
    requires SchemaStep(schema, c).Success? && c.localName == "complexType"
    ensures ParseComplexType(c, schema.complexTypes).Success?
    ensures SchemaStep(schema, c).value.complexTypes == schema.complexTypes + [ParseComplexType(c, schema.complexTypes).value]
  {
  }

  /** An element child sets the member to its parse against the types collected so far. */
  lemma StepSetsMember(schema: Schema, c: Elem)
    requires SchemaStep(schema, c).Success? && c.localName == "element"
    ensures ParseElement(c, schema.complexTypes).Success?
    ensures SchemaStep(schema, c).value.member == Some(ParseElement(c, schema.complexTypes).value)
  {
  }

  /** Moving the walk on by one child keeps its outcome and the count of types collected before child `k`. */
  lemma SchemaShift(root: Elem, i: nat, schema: Schema, k: nat)
    requires i < k <= |ChildElements(root)| && ParseSchemaFrom(root, i, schema).Success?
    ensures SchemaStep(schema, ChildElements(root)[i]).Success?
    ensures ParseSchemaFrom(root, i + 1, SchemaStep(schema, ChildElements(root)[i]).value) == ParseSchemaFrom(root, i, schema)
    ensures TypesBefore(root, i + 1, SchemaStep(schema, ChildElements(root)[i]).value, k) == TypesBefore(root, i, schema, k)
  {
    var kids := ChildElements(root);
    SchemaFromStep(root, i, schema);
    StepTypesGrow(schema, kids[i]);
    NamedSliceFrom(kids, i, k, "complexType");
  }

  /** A walk that starts at complexType child `i` adds its parse against the schema's types, right after them. */
  lemma ComplexTypeHere(root: Elem, i: nat, schema: Schema)
    requires i < |ChildElements(root)| && ChildElements(root)[i].localName == "complexType"
    requires ParseSchemaFrom(root, i, schema).Success?
    ensures |schema.complexTypes| < |ParseSchemaFrom(root, i, schema).value.complexTypes|
    ensures ParseSchemaFrom(root, i, schema).value.complexTypes[..|schema.complexTypes|] == schema.complexTypes
    ensures ParseComplexType(ChildElements(root)[i], schema.complexTypes).Success?
    ensures ParseSchemaFrom(root, i, schema).value.complexTypes[|schema.complexTypes|]
      == ParseComplexType(ChildElements(root)[i], schema.complexTypes).value
  {
    var c := ChildElements(root)[i];
    SchemaFromStep(root, i, schema);
    var next := SchemaStep(schema, c).value;
    StepAddsType(schema, c);
    SchemaComplexTypes(root, i + 1, next);
    var types := ParseSchemaFrom(root, i + 1, next).value.complexTypes;
    assert types[..|schema.complexTypes|] == types[..|next.complexTypes|][..|schema.complexTypes|];
    assert types[|schema.complexTypes|] == types[..|next.complexTypes|][|schema.complexTypes|];
  }

  /** A walk that starts at the last element child `i` ends with its parse against the schema's types as the member. */
  lemma MemberHere(root: Elem, i: nat, schema: Schema)
    requires i < |ChildElements(root)| && ChildElements(root)[i].localName == "element"
    requires forall j :: i < j < |ChildElements(root)| ==> ChildElements(root)[j].localName != "element"
    requires ParseSchemaFrom(root, i, schema).Success?
    ensures |schema.complexTypes| <= |ParseSchemaFrom(root, i, schema).value.complexTypes|
    ensures ParseSchemaFrom(root, i, schema).value.complexTypes[..|schema.complexTypes|] == schema.complexTypes
    ensures ParseElement(ChildElements(root)[i], schema.complexTypes).Success?
    ensures ParseSchemaFrom(root, i, schema).value.member == Some(ParseElement(ChildElements(root)[i], schema.complexTypes).value)
  {
    var kids := ChildElements(root);
    var c := kids[i];
    SchemaFromStep(root, i, schema);
    var next := SchemaStep(schema, c).value;
    StepSetsMember(schema, c);
    StepTypesGrow(schema, c);
    SchemaComplexTypes(root, i + 1, next);
    var later := kids[i + 1..];
    forall t | 0 <= t < |later|
      ensures later[t].localName != "element"
    {
      assert later[t] == kids[i + 1 + t];
    }
    SchemaMember(root, i + 1, next);
  }

  /**
    From child `i` on, the complex type that complexType child `k` adds is its
    parse against the complex types collected before it.
   */
  lemma {:induction false} SchemaComplexTypeFrom(root: Elem, i: nat, schema: Schema, k: nat)
    requires i <= k < |ChildElements(root)| && ChildElements(root)[k].localName == "complexType"
    requires ParseSchemaFrom(root, i, schema).Success?
    ensures TypesBefore(root, i, schema, k) < |ParseSchemaFrom(root, i, schema).value.complexTypes|
    ensures ParseComplexType(ChildElements(root)[k],
      ParseSchemaFrom(root, i, schema).value.complexTypes[..TypesBefore(root, i, schema, k)]).Success?
    ensures ParseSchemaFrom(root, i, schema).value.complexTypes[TypesBefore(root, i, schema, k)]
      == ParseComplexType(ChildElements(root)[k],
           ParseSchemaFrom(root, i, schema).value.complexTypes[..TypesBefore(root, i, schema, k)]).value
    decreases k - i
  {
    if i < k {
      SchemaShift(root, i, schema, k);
      SchemaComplexTypeFrom(root, i + 1, SchemaStep(schema, ChildElements(root)[i]).value, k);
    } else {
      assert ChildElements(root)[i..k] == [];
      ComplexTypeHere(root, i, schema);
    }
  }

  /**
    From child `i` on, when child `k` is the last element child, the member is
    its parse against the complex types collected before it.
   */
  lemma {:induction false} SchemaMemberFrom(root: Elem, i: nat, schema: Schema, k: nat)
    requires i <= k < |ChildElements(root)| && ChildElements(root)[k].localName == "element"
    requires forall j :: k < j < |ChildElements(root)| ==> ChildElements(root)[j].localName != "element"
    requires ParseSchemaFrom(root, i, schema).Success?
    ensures TypesBefore(root, i, schema, k) <= |ParseSchemaFrom(root, i, schema).value.complexTypes|
    ensures ParseElement(ChildElements(root)[k],
      ParseSchemaFrom(root, i, schema).value.complexTypes[..TypesBefore(root, i, schema, k)]).Success?
    ensures ParseSchemaFrom(root, i, schema).value.member
      == Some(ParseElement(ChildElements(root)[k],
           ParseSchemaFrom(root, i, schema).value.complexTypes[..TypesBefore(root, i, schema, k)]).value)
    decreases k - i
  {
    if i < k {
      SchemaShift(root, i, schema, k);
      SchemaMemberFrom(root, i + 1, SchemaStep(schema, ChildElements(root)[i]).value, k);
    } else {
      assert ChildElements(root)[i..k] == [];
      MemberHere(root, i, schema);
    }
  }

  /**
    Each complexType child of the schema contributes, at the position given by
    the complexType children before it, its own parse against the complex types
    collected so far.
   */
  lemma SchemaComplexTypeAt(root: Elem, k: nat)
    requires k < |ChildElements(root)| && ChildElements(root)[k].localName == "complexType"
    requires ParseSchema(root).Success?
    ensures |Named(ChildElements(root)[..k], "complexType")| < |ParseSchema(root).value.complexTypes|
    ensures ParseComplexType(ChildElements(root)[k],
      ParseSchema(root).value.complexTypes[..|Named(ChildElements(root)[..k], "complexType")|]).Success?
    ensures ParseSchema(root).value.complexTypes[|Named(ChildElements(root)[..k], "complexType")|]
      == ParseComplexType(ChildElements(root)[k],
           ParseSchema(root).value.complexTypes[..|Named(ChildElements(root)[..k], "complexType")|]).value
  {
    assert ChildElements(root)[0..k] == ChildElements(root)[..k];
    assert TypesBefore(root, 0, EmptySchema, k) == |Named(ChildElements(root)[..k], "complexType")|;
    SchemaComplexTypeFrom(root, 0, EmptySchema, k);
  }

  /**
    The member of the schema is the parse of its last element child against the
    complex types declared before that child.
   */
  lemma SchemaMemberAt(root: Elem, k: nat)
    requires k < |ChildElements(root)| && ChildElements(root)[k].localName == "element"
    requires forall j :: k < j < |ChildElements(root)| ==> ChildElements(root)[j].localName != "element"
    requires ParseSchema(root).Success?
    ensures |Named(ChildElements(root)[..k], "complexType")| <= |ParseSchema(root).value.complexTypes|
    ensures ParseElement(ChildElements(root)[k],
      ParseSchema(root).value.complexTypes[..|Named(ChildElements(root)[..k], "complexType")|]).Success?
    ensures ParseSchema(root).value.member
      == Some(ParseElement(ChildElements(root)[k],
           ParseSchema(root).value.complexTypes[..|Named(ChildElements(root)[..k], "complexType")|]).value)
  {
    assert ChildElements(root)[0..k] == ChildElements(root)[..k];
    assert TypesBefore(root, 0, EmptySchema, k) == |Named(ChildElements(root)[..k], "complexType")|;
    SchemaMemberFrom(root, 0, EmptySchema, k);
  }

  /** The simple types of the given simpleType elements, in order. */
  function SimpleTypesOf(elems: seq<Elem>): seq<SimpleType> {
    if |elems| == 0 then [] else [ParseSimpleType(elems[0])] + SimpleTypesOf(elems[1..])
  }

  /**
    A parsed schema has one simple type per simpleType child and one complex type
    per complexType child, in document order; the documentation of the last
    annotation child; and the member of the last element child.
   */
  lemma SchemaContents(root: Elem)
    ensures var r := ParseSchema(root);
      var kids := ChildElements(root);
      r.Success? ==>
        && r.value.simpleTypes == SimpleTypesOf(Named(kids, "simpleType"))
        && |r.value.complexTypes| == |Named(kids, "complexType")|
        && r.value.documentation == LastDocumentation(kids, None)
        && (r.value.member.Some? <==> LastNamed(kids, "element").Some?)
        && (LastNamed(kids, "element").Some? ==> r.value.member.value.name == GetAttribute(LastNamed(kids, "element").value, "name"))
  {
    var kids := ChildElements(root);
    assert kids[0..] == kids;
    if ParseSchema(root).Success? {
      SchemaSimpleTypes(root, 0, EmptySchema);
      SchemaComplexTypes(root, 0, EmptySchema);
      SchemaDocumentation(root, 0, EmptySchema);
      SchemaMember(root, 0, EmptySchema);
    }
  }

  // ---------------------------------------------------------------------------
  // Type lookup

  /** Adding a type never changes which type an already resolvable name resolves to: the first one wins. */
  lemma LookupKeepsFirst(types: seq<ComplexType>, t: ComplexType, name: string)
    ensures LookupComplexType(types, name).Some? ==> LookupComplexType(types + [t], name) == LookupComplexType(types, name)
    ensures LookupComplexType(types, name).None? ==>
      LookupComplexType(types + [t], name) == if t.name == Some(name) then Some(t) else None
  {
    if |types| > 0 {
      assert (types + [t])[1..] == types[1..] + [t];
      LookupKeepsFirst(types[1..], t, name);
    }
  }
}
