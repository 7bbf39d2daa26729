# databene formats: array diffs and the XSD walker, in Dafny

This project models two parts of the databene `formats` library.

**The array comparator.** `ArrayComparator.compare(left, right, model, basePath, diffFactory)`
compares two arrays under a `ComparisonModel`. The model says when two elements are `equal`,
when they `correspond` (are "the same element, changed") and how an index is written as a
locator (`subPath`). The result is an ordered list of diffs, each one of:

- `missing(value, category, locator)`;
- `unexpected(value, category, locator)`;
- `moved(value, category, fromLocator, toLocator)`;
- `different(old, new, category, locator)`.

`identical()` holds when that list is empty. The model's rule has three stages:

1. Pairing (`Matching.Match`):
   - Each left element, in left order, claims the first unclaimed right element it is `equal` to.
   - Each left element still unpaired then claims the first unclaimed right element it `corresponds` to.
2. Moves (`Matching.Moves`):
   - The paired left indices are listed in left order and in their partners' right order.
   - The two lists are walked together.
   - Where they disagree, the left-order element is reported as moved and swapped into its place in the right-order list.
3. Report (`ArrayComparator.Report`):
   - The positions `0 .. max(|left|, |right|) - 1` are visited in order.
   - At each position, the left element's diffs come first: moved and/or different, or missing.
   - Then comes the right element's diff: unexpected, when nothing claimed it.

The `StringComparisonModel` of the test is `ComparisonModels.StringModel`:

- Strings are `equal` when they are the same string.
- Strings `correspond` when their first characters agree.
- A locator is `"[" + i + "]"`.

Every fixture of `ArrayComparatorTest` is proved as a lemma about this model. Each general law the fixtures illustrate is proved for an arbitrary model:

- a single removal;
- a single insertion;
- a single replacement;
- an exchange of two elements;
- identity;
- soundness and completeness of the report.

**The XSD walker.** `SchemaParser` walks the element tree of an XML Schema document. It dispatches on each child's local name and builds these objects:

- `Schema`
- `SimpleType`
- `ComplexType`, either plain or composite
- `ComplexMember`
- `Attribute`

Every `UnsupportedOperationException`, missing required attribute and `NumberFormatException` becomes a `Failure` in a `Result`. The failure is raised by the first child, in document order, that raises one.

The DOM is reduced to what the walker reads (`Dom.Elem`):

- the local name;
- the qualified node name;
- the attributes;
- the child nodes, which are elements and text.

`Element.getAttribute` returns `""` for an absent attribute, as the W3C DOM Level 2 Core specification states. `Integer.parseInt` is modelled by `Numerals.ParseInt`:

- an optional sign;
- one or more ASCII digits;
- a value within the 32-bit `int` range.

Modules, one file each:

| file | module | holds |
|---|---|---|
| `wrappers.dfy` | `Wrappers` | `Option` and `Result` |
| `numerals.dfy` | `Numerals` | decimal rendering `"" + n`; `Integer.parseInt` |
| `comparison_model.dfy` | `ComparisonModels` | `ComparisonModel`; the test's string model |
| `diffs.dfy` | `Diffs` | the four diff kinds; the comparison result |
| `matching.dfy` | `Matching` | the pairing passes; the move rule |
| `array_comparator.dfy` | `ArrayComparator` | `compare` and the report order |
| `comparator_laws.dfy` | `ComparatorLaws` | single removal, insertion and replacement; a swap of two |
| `comparator_report.dfy` | `ComparatorReport` | soundness and completeness of the report |
| `comparator_fixtures.dfy` | `ComparatorFixtures` | every test case of `ArrayComparatorTest` |
| `dom.dfy` | `Dom` | elements, text nodes; the `XMLUtil` accessors |
| `schema.dfy` | `Xsd` | the schema objects; the parse errors |
| `schema_parser.dfy` | `SchemaParser` | the walker itself |
| `schema_laws.dfy` | `SchemaLaws` | what a successful parse contains; what is rejected |

Some behaviour of the model follows the code rather than a reading of the API:

- A complexType with both a `simpleContent` and a `sequence` child is rejected. Such a type does take the plain branch, but `parseComplexTypeWithSimpleContent` refuses the `sequence` child (`SchemaLaws.SimpleContentWithSequenceRejected`).
- `"-1"` and `"unbounded"` give the same cardinality (`SchemaLaws.OccursMinusOneIsUnbounded`).
- Negative cardinalities are accepted as they are.
- The root element's name is not checked.
- An element's type and documentation come from its LAST `complexType` and `annotation` children. The schema's documentation and member come from its LAST `annotation` and `element` children.
- The message for a bad child of a `sequence` names the parent `'element'`, as the source's message does.

## Model

| member | source | states |
|---|---|---|
| `ArrayComparator.Compare` | src/test/java/org/databene/formats/compare/ArrayComparatorTest.java:190-199 | `identical()` holds exactly when the two arrays have the same length and are `equal` index by index |
| `Diffs.ComparisonResult.Identical` | src/test/java/org/databene/formats/compare/ArrayComparatorTest.java:190-195 | no contract of its own: `identical()` is an empty diff list; `ArrayComparator.Compare` states when that happens |
| `ArrayComparator.Align` | src/test/java/org/databene/formats/compare/ArrayComparatorTest.java:111-131 | the alignment pairs only indices of the two arrays, and only paired left indices are moved; `ArrayComparator.AlignMonotone` states that a pairing whose pairs never cross moves nothing |
| `ArrayComparator.LeftDiffs` | src/test/java/org/databene/formats/compare/ArrayComparatorTest.java:165-185 | no contract of its own; `ComparatorReport.ReportExplained` and `ComparatorReport.ReportComplete` state which left-element diffs it yields: moved and/or different for a paired element, missing for an unpaired one |
| `ArrayComparator.RightDiffs` | src/test/java/org/databene/formats/compare/ArrayComparatorTest.java:155-163 | no contract of its own; `ComparatorReport.ReportExplained` and `ComparatorReport.ReportComplete` state that it yields one unexpected diff exactly for an unclaimed right element |
| `ArrayComparator.Report` | src/test/java/org/databene/formats/compare/ArrayComparatorTest.java:175-185 | no contract of its own; `ComparatorReport.ReportExplained` (soundness), `ComparatorReport.ReportComplete` (completeness) and `ArrayComparator.IdenticalIffPairwiseEqual` state what the report contains |
| `ArrayComparator.IdenticalIffPairwiseEqual` | src/test/java/org/databene/formats/compare/ArrayComparatorTest.java:190-199 | the diff list is empty if and only if the arrays are pairwise equal, in both directions |
| `ArrayComparator.EmptyReportMeansAllPaired` | src/test/java/org/databene/formats/compare/ArrayComparatorTest.java:190-199 | an empty report means every left element is paired with an equal right element and is not moved, and every right element is claimed |
| `ArrayComparator.AlignMonotone` | src/test/java/org/databene/formats/compare/ArrayComparatorTest.java:57-109 | a pairing whose pairs never cross reports no move |
| `Matching.Match` | src/test/java/org/databene/formats/compare/ArrayComparatorTest.java:146-185 | the pairing claims no right element twice; every pair is equal or corresponding; an unpaired left element neither equals nor corresponds to any unclaimed right element |
| `Matching.Pass` | src/test/java/org/databene/formats/compare/ArrayComparatorTest.java:146-185 | a pass keeps the earlier pairs; every pair it adds is accepted by its predicate; afterwards no unpaired left element has an acceptable unclaimed partner |
| `Matching.FirstFree` | src/test/java/org/databene/formats/compare/ArrayComparatorTest.java:93-109 | the chosen right element is unclaimed and acceptable, and every unclaimed element before it is not acceptable |
| `Matching.Moves` | src/test/java/org/databene/formats/compare/ArrayComparatorTest.java:111-131 | only left indices of the pairing are moved; `Matching.MovesEmptyIff` states that nothing is moved exactly when the two orders agree, and `Matching.SwapMovesEarlier` what an exchange moves |
| `Matching.MovesEmptyIff` | src/test/java/org/databene/formats/compare/ArrayComparatorTest.java:111-131 | for two orders of the same pairs, nothing is moved exactly when the orders agree |
| `Matching.NoMovesMeansSameOrder` | src/test/java/org/databene/formats/compare/ArrayComparatorTest.java:111-131 | when nothing is moved, the left order and the right order agree position by position |
| `Matching.SwapMovesEarlier` | src/test/java/org/databene/formats/compare/ArrayComparatorTest.java:111-131 | exchanging two of a list of distinct pairs reports exactly one move: the pair that comes first on the left |
| `Matching.MonotoneHasNoMoves` | src/test/java/org/databene/formats/compare/ArrayComparatorTest.java:57-109 | when pairs never cross, the left and right orders are the same list and nothing is moved |
| `Matching.OrderedBijectionIsIdentity` | src/test/java/org/databene/formats/compare/ArrayComparatorTest.java:190-199 | a pairing that pairs everything and moves nothing pairs every index with itself |
| `Matching.PassOfPairwise` | src/test/java/org/databene/formats/compare/ArrayComparatorTest.java:41-55 | a pass over index-by-index acceptable arrays pairs every index with itself |
| `ComparatorLaws.SingleRemoval` | src/test/java/org/databene/formats/compare/ArrayComparatorTest.java:57-82 | removing element `k` reports exactly one `missing` of it at its left locator |
| `ComparatorLaws.SingleInsertion` | src/test/java/org/databene/formats/compare/ArrayComparatorTest.java:84-109 | inserting an element equal to none after it reports exactly one `unexpected` of it at its right locator |
| `ComparatorLaws.SingleReplacement` | src/test/java/org/databene/formats/compare/ArrayComparatorTest.java:146-163 | replacing element `k` reports one `different(old, new)` at `k` when the two correspond; otherwise `missing` then `unexpected`, both at `k` |
| `ComparatorLaws.SwapOfTwo` | src/test/java/org/databene/formats/compare/ArrayComparatorTest.java:111-131 | exchanging two distinct elements reports exactly one `moved`: the earlier one, from its left locator to its right locator |
| `ComparatorLaws.SwapMoves` | src/test/java/org/databene/formats/compare/ArrayComparatorTest.java:111-131 | the swap pairing moves exactly the earlier exchanged index |
| `ComparatorReport.ReportExplained` | src/test/java/org/databene/formats/compare/ArrayComparatorTest.java:175-185 | every reported diff stands for one of four things in the pairing: an unpaired left element, an unclaimed right element, a moved pair, or a pair that is not equal |
| `ComparatorReport.ReportComplete` | src/test/java/org/databene/formats/compare/ArrayComparatorTest.java:175-185 | every unpaired, unclaimed, moved or unequal element is reported, with its value and locators |
| `ComparatorReport.DifferentCorresponds` | src/test/java/org/databene/formats/compare/ArrayComparatorTest.java:146-153 | a reported `different` is between elements the model does not call equal but does find corresponding |
| `ComparatorReport.LeftoversUnrelated` | src/test/java/org/databene/formats/compare/ArrayComparatorTest.java:155-163 | an element reported missing and one reported unexpected are neither equal nor corresponding |
| `ComparatorFixtures.IdenticalLists` | src/test/java/org/databene/formats/compare/ArrayComparatorTest.java:41-47 | A,B,C against A,B,C is identical |
| `ComparatorFixtures.EmptyLists` | src/test/java/org/databene/formats/compare/ArrayComparatorTest.java:49-55 | two empty arrays are identical |
| `ComparatorFixtures.RemovedLast` | src/test/java/org/databene/formats/compare/ArrayComparatorTest.java:57-64 | A,B,C against A,B gives exactly missing C at [2] |
| `ComparatorFixtures.RemovedMiddle` | src/test/java/org/databene/formats/compare/ArrayComparatorTest.java:66-73 | A,B,C against A,C gives exactly missing B at [1] |
| `ComparatorFixtures.RemovedFirst` | src/test/java/org/databene/formats/compare/ArrayComparatorTest.java:75-82 | A,B,C against B,C gives exactly missing A at [0] |
| `ComparatorFixtures.AddedEnd` | src/test/java/org/databene/formats/compare/ArrayComparatorTest.java:84-91 | A,B,C against A,B,C,X gives exactly unexpected X at [3] |
| `ComparatorFixtures.AddedInBetween` | src/test/java/org/databene/formats/compare/ArrayComparatorTest.java:93-100 | A,B,C against A,X,B,C gives exactly unexpected X at [1] |
| `ComparatorFixtures.AddedBeginning` | src/test/java/org/databene/formats/compare/ArrayComparatorTest.java:102-109 | A,B,C against X,A,B,C gives exactly unexpected X at [0] |
| `ComparatorFixtures.SwappedNeighbours` | src/test/java/org/databene/formats/compare/ArrayComparatorTest.java:111-118 | A,B,C against A,C,B gives exactly moved B from [1] to [2] |
| `ComparatorFixtures.SwappedEnds` | src/test/java/org/databene/formats/compare/ArrayComparatorTest.java:120-131 | A,B,C against C,B,A is not identical and gives exactly moved A from [0] to [2] |
| `ComparatorFixtures.RingChange` | src/test/java/org/databene/formats/compare/ArrayComparatorTest.java:133-144 | A,B,C against the rotation B,C,A is not identical |
| `ComparatorFixtures.Changed` | src/test/java/org/databene/formats/compare/ArrayComparatorTest.java:146-153 | A,B,C against A,B2,C gives exactly different B/B2 at [1] |
| `ComparatorFixtures.RemovedAndAdded` | src/test/java/org/databene/formats/compare/ArrayComparatorTest.java:155-163 | A,B,C against A,X,C gives exactly missing B at [1], then unexpected X at [1] |
| `ComparatorFixtures.MovedAndChanged` | src/test/java/org/databene/formats/compare/ArrayComparatorTest.java:165-173 | A,B,C against A,C,B2 gives exactly moved B from [1] to [2], then different B/B2 at [1] |
| `ComparatorFixtures.AllChangeTypes` | src/test/java/org/databene/formats/compare/ArrayComparatorTest.java:175-185 | A,B,C,D,E against A,X,B,D2,C gives exactly unexpected X [1], moved C [2]→[4], different D/D2 [3], missing E [4], in that order |
| `ComparisonModels.StringModelConsistent` | src/test/java/org/databene/formats/compare/ArrayComparatorTest.java:209-217 | in the string model equal strings correspond, and equality is string identity |
| `ComparisonModels.StringModel` | src/test/java/org/databene/formats/compare/ArrayComparatorTest.java:202-224 | no contract of its own: equality is string equality, correspondence compares first characters, the locator is the index in brackets; `ComparisonModels.StringModelConsistent` and `ComparisonModels.StringLocatorParsesBack` state its laws |
| `ComparisonModels.StringLocatorParsesBack` | src/test/java/org/databene/formats/compare/ArrayComparatorTest.java:219-222 | a locator is the index in brackets, and the bracketed text parses back to the index |
| `Numerals.Decimal` | src/test/java/org/databene/formats/compare/ArrayComparatorTest.java:220-222 | the rendering of `n` is a canonical numeral whose digits have the value `n` |
| `Numerals.DecimalOfDigitsValue` | src/test/java/org/databene/formats/compare/ArrayComparatorTest.java:220-222 | every canonical numeral is the rendering of its own value, so rendering is onto the canonical numerals |
| `Numerals.DecimalInjective` | src/test/java/org/databene/formats/compare/ArrayComparatorTest.java:220-222 | two numbers with the same rendering are equal |
| `Numerals.ParseIntIsNumeralValue` | src/main/java/org/databene/formats/xsd/SchemaParser.java:158 | the digit-by-digit scan agrees with the direct statement of which strings are ints and what they mean |
| `Numerals.ParseIntFacts` | src/main/java/org/databene/formats/xsd/SchemaParser.java:158 | a parsed int is within the 32-bit range; a non-digit after the first character, or a first character that is neither digit nor sign, is rejected; a canonical numeral parses to the number it renders |
| `Numerals.ParseIntOfDecimal` | src/main/java/org/databene/formats/xsd/SchemaParser.java:158 | parsing the rendering of a number within range, with or without a minus sign, gives the number back |
| `Numerals.ParseInt` | src/main/java/org/databene/formats/xsd/SchemaParser.java:158 | no contract of its own; `Numerals.ParseIntIsNumeralValue` states that it accepts exactly the signed decimal numerals within the 32-bit range and reads each as its value |
| `SchemaParser.ParseOccurs` | src/main/java/org/databene/formats/xsd/SchemaParser.java:151-159 | an empty or absent value is 1, "unbounded" is -1, a result is a 32-bit int, and a failure is a number-format error for text `parseInt` rejects; `SchemaLaws.OccursIsNumeralValue` gives the value of any other text |
| `SchemaParser.ParseAnnotationDocumentation` | src/main/java/org/databene/formats/xsd/SchemaParser.java:54-61 | there is documentation exactly when some child is named `documentation`; `SchemaLaws.DocumentationIsFirst` states that it is the text of the first such child |
| `SchemaParser.ParseSimpleType` | src/main/java/org/databene/formats/xsd/SchemaParser.java:63-67 | no contract of its own: a simple type carries only the `name` attribute; `SchemaLaws.SchemaContents` states that the schema holds one per simpleType child, in order |
| `SchemaParser.ParseAttribute` | src/main/java/org/databene/formats/xsd/SchemaParser.java:123-126 | an attribute is accepted exactly when its `name` is present and non-empty, and is named by it; otherwise a missing-attribute error |
| `SchemaParser.ParsePlainChildren` | src/main/java/org/databene/formats/xsd/SchemaParser.java:79-92 | an accepted plain type has only simpleContent and attribute children |
| `SchemaParser.ParseComplexType` | src/main/java/org/databene/formats/xsd/SchemaParser.java:69-77 | no contract of its own; `SchemaLaws.ComplexTypeContents` states the three branches: simpleContent gives a plain type, otherwise a sequence gives a composite type, otherwise a rejection |
| `SchemaParser.ParseCompositeChildren` | src/main/java/org/databene/formats/xsd/SchemaParser.java:98-111 | no contract of its own; `SchemaLaws.CompositeAccepts`, `SchemaLaws.CompositeAttributes` and `SchemaLaws.CompositeMemberValues` state which children it accepts and which attributes and members it collects |
| `SchemaParser.ParseSequence` | src/main/java/org/databene/formats/xsd/SchemaParser.java:113-121 | no contract of its own; `SchemaLaws.SequenceMembers`, `SchemaLaws.SequenceLength` and `SchemaLaws.SequenceValues` state that it accepts exactly element children and yields their parses in order |
| `SchemaParser.ParseElement` | src/main/java/org/databene/formats/xsd/SchemaParser.java:128-149 | no contract of its own; `SchemaLaws.ElementHeader` and `SchemaLaws.ElementContents` state its name, type, documentation and cardinalities |
| `SchemaParser.ParseElementChildren` | src/main/java/org/databene/formats/xsd/SchemaParser.java:132-140 | no contract of its own; `SchemaLaws.ElementChildrenAccepted`, `SchemaLaws.ElementInlineType` and `SchemaLaws.ElementAnnotation` state which children it accepts and what it keeps |
| `SchemaParser.ResolveType` | src/main/java/org/databene/formats/xsd/SchemaParser.java:141-144 | an inline type is kept; without one, a missing `type` attribute is a failure and a present one resolves to the first known type of that name, absent when none; `Xsd.LookupComplexType` states the lookup |
| `SchemaParser.ParseSchemaFrom` | src/main/java/org/databene/formats/xsd/SchemaParser.java:36-52 | a walk from child `i` on succeeds only when every remaining child is one of the four supported ones; `SchemaLaws.SchemaComplexTypeFrom` and `SchemaLaws.SchemaMemberFrom` state what it collects |
| `SchemaParser.SchemaStep` | src/main/java/org/databene/formats/xsd/SchemaParser.java:38-50 | a schema child fails exactly when its name is not one of the four supported ones, or it is a complexType or element that fails to parse |
| `SchemaParser.ParseSchema` | src/main/java/org/databene/formats/xsd/SchemaParser.java:31-52 | an accepted schema has only annotation, simpleType, complexType and element children |
| `Xsd.LookupComplexType` | src/main/java/org/databene/formats/xsd/SchemaParser.java:142-143 | the type found carries the name, and no earlier type does; none is found exactly when no type carries the name |
| `Dom.FirstNamed` | src/main/java/org/databene/formats/xsd/SchemaParser.java:54-61 | the element found has the name, and no earlier one does; none is found exactly when no element has it |
| `Dom.ChildElements` | src/main/java/org/databene/formats/xsd/SchemaParser.java:38 | no contract of its own: the element children in document order; `Dom.ElementsOfMembers` states that they are exactly the child nodes that are elements |
| `Dom.ElementsOfMembers` | src/main/java/org/databene/formats/xsd/SchemaParser.java:38 | an element is among the element children exactly when it is one of the child nodes |
| `Dom.HasNamed` | src/main/java/org/databene/formats/xsd/SchemaParser.java:70-74 | no contract of its own; `Dom.HasNamedIff` states that it holds exactly when some element has the local name |
| `Dom.HasNamedIff` | src/main/java/org/databene/formats/xsd/SchemaParser.java:70-74 | a child with the local name is found exactly when some child element carries it, in both directions |
| `Dom.TextContent` | src/main/java/org/databene/formats/xsd/SchemaParser.java:58 | no contract of its own: the text of a node and all its descendants in document order; `SchemaLaws.DocumentationIsFirst` ties it to annotation documentation |
| `Dom.GetAttribute` | src/main/java/org/databene/formats/xsd/SchemaParser.java:151-153 | no contract of its own: the attribute value, `""` when absent; `SchemaParser.ParseOccurs` states that such an empty value reads as 1 |
| `Dom.OptionalAttribute` | src/main/java/org/databene/formats/xsd/SchemaParser.java:79-81 | a non-required attribute is absent exactly when its value is empty, and otherwise is that value |
| `SchemaLaws.OccursOfDecimal` | src/main/java/org/databene/formats/xsd/SchemaParser.java:151-159 | a cardinality written as a non-negative decimal int is read as that int |
| `SchemaLaws.OccursRendersBack` | src/main/java/org/databene/formats/xsd/SchemaParser.java:151-159 | a cardinality read from a canonical numeral renders back to the same text |
| `SchemaLaws.OccursRejectsNonNumeric` | src/main/java/org/databene/formats/xsd/SchemaParser.java:151-159 | text other than "unbounded" with a non-digit after its first character is a number-format failure |
| `SchemaLaws.OccursMinusOneIsUnbounded` | src/main/java/org/databene/formats/xsd/SchemaParser.java:151-159 | "-1" and "unbounded" are read as the same cardinality |
| `SchemaLaws.OccursIsNumeralValue` | src/main/java/org/databene/formats/xsd/SchemaParser.java:151-159 | a cardinality other than empty and "unbounded" is accepted exactly when it is a signed decimal numeral within the 32-bit range, and then is that numeral's value; otherwise it is a number-format failure naming the text |
| `SchemaLaws.DocumentationIsFirst` | src/main/java/org/databene/formats/xsd/SchemaParser.java:54-61 | the documentation found is the text content of the first `documentation` child, and no earlier child has that name |
| `SchemaLaws.SequenceMembers` | src/main/java/org/databene/formats/xsd/SchemaParser.java:113-121 | a sequence is accepted exactly when every child is an element that parses |
| `SchemaLaws.SequenceLength` | src/main/java/org/databene/formats/xsd/SchemaParser.java:113-121 | an accepted sequence has one member per child element |
| `SchemaLaws.SequenceValues` | src/main/java/org/databene/formats/xsd/SchemaParser.java:113-121 | member `k` of an accepted sequence is the parse of child element `k`, in document order |
| `SchemaLaws.PlainAccepts` | src/main/java/org/databene/formats/xsd/SchemaParser.java:79-92 | a plain type's children are accepted exactly when each is simpleContent or an attribute with a name |
| `SchemaLaws.PlainAttributes` | src/main/java/org/databene/formats/xsd/SchemaParser.java:79-92 | a plain type's attributes are its attribute children, one each, in document order |
| `SchemaLaws.CompositeAccepts` | src/main/java/org/databene/formats/xsd/SchemaParser.java:98-111 | a composite type's children are accepted exactly when each is a sequence that parses or an attribute with a name |
| `SchemaLaws.CompositeAttributes` | src/main/java/org/databene/formats/xsd/SchemaParser.java:98-111 | a composite type's attributes are its attribute children, one each, in document order |
| `SchemaLaws.CompositeMembers` | src/main/java/org/databene/formats/xsd/SchemaParser.java:98-121 | a composite type has one member per element child of all its sequences together |
| `SchemaLaws.CompositeMemberValues` | src/main/java/org/databene/formats/xsd/SchemaParser.java:98-121 | the members of an accepted composite type are the members of its sequence children, concatenated in document order |
| `SchemaLaws.ComplexTypeMembers` | src/main/java/org/databene/formats/xsd/SchemaParser.java:69-77 | an accepted complex type without simpleContent is composite and holds the members of all its sequences, in document order |
| `SchemaLaws.ComplexTypeContents` | src/main/java/org/databene/formats/xsd/SchemaParser.java:69-111 | a type with simpleContent is plain with its attribute children; otherwise one with a sequence is composite with its attribute children and one member per sequence element; one with neither is rejected |
| `SchemaLaws.SimpleContentWithSequenceRejected` | src/main/java/org/databene/formats/xsd/SchemaParser.java:69-92 | a complexType with both simpleContent and sequence children is rejected |
| `SchemaLaws.ElementChildrenAccepted` | src/main/java/org/databene/formats/xsd/SchemaParser.java:132-140 | an element's children are accepted exactly when each is an annotation or a complexType that parses |
| `SchemaLaws.ElementInlineType` | src/main/java/org/databene/formats/xsd/SchemaParser.java:132-140 | the inline type is the parse of the last complexType child, and is absent when there is none |
| `SchemaLaws.ElementAnnotation` | src/main/java/org/databene/formats/xsd/SchemaParser.java:132-140 | the documentation comes from the last annotation child |
| `SchemaLaws.ElementHeader` | src/main/java/org/databene/formats/xsd/SchemaParser.java:128-149 | an element is accepted exactly when its children, its type and both cardinalities are; it carries its `name` and the parsed `minOccurs`/`maxOccurs` |
| `SchemaLaws.ElementContents` | src/main/java/org/databene/formats/xsd/SchemaParser.java:128-149 | an element's type is its last inline complexType or else the known type its `type` attribute names; its documentation is the last annotation's |
| `SchemaLaws.ElementWithoutType` | src/main/java/org/databene/formats/xsd/SchemaParser.java:141-144 | without an inline type and without a `type` attribute, an element fails for the missing attribute |
| `SchemaLaws.SchemaContents` | src/main/java/org/databene/formats/xsd/SchemaParser.java:36-52 | an accepted schema has one simple type per simpleType child, in order; as many complex types as complexType children; the last annotation's documentation; and a member exactly when there is an element child, named as the last one |
| `SchemaLaws.SchemaComplexTypes` | src/main/java/org/databene/formats/xsd/SchemaParser.java:36-52 | the walk keeps the complex types collected before and appends one per complexType child |
| `SchemaLaws.SchemaComplexTypeFrom` | src/main/java/org/databene/formats/xsd/SchemaParser.java:36-52 | walking from child `i`, the type a complexType child adds sits after the types collected before it and is that child's parse against them |
| `SchemaLaws.SchemaMemberFrom` | src/main/java/org/databene/formats/xsd/SchemaParser.java:36-52 | walking from child `i`, the member is the parse of the last element child against the types collected before it |
| `SchemaLaws.SchemaComplexTypeAt` | src/main/java/org/databene/formats/xsd/SchemaParser.java:44-45 | complex type number `n` of a schema, where `n` complexType children come before child `k`, is child `k`'s parse against the first `n` types |
| `SchemaLaws.SchemaMemberAt` | src/main/java/org/databene/formats/xsd/SchemaParser.java:46-47 | the member of a schema is the parse of its last element child against the complex types declared before that child |
| `SchemaLaws.LookupKeepsFirst` | src/main/java/org/databene/formats/xsd/SchemaParser.java:142-143 | adding a type never changes what an already resolvable name resolves to |

## Left out

- The source of `ArrayComparator`, `ArrayComparisonResult`, `DiffFactory` and `ComparisonModel` is not part of this model. The comparison rule above is reconstructed from the expected diffs of `ArrayComparatorTest`. The category string `"list element"` is an assumption about code not shown. So is the locator `basePath + subPath(array, i)`.
- `DiffDetail` rendering and `XMLNode2StringConverter` are left out. Diffs are compared as values.
- The test's `System.out` printing is left out. So is `addKeyExpression`, which the string model leaves empty.
- `charAt(0)` on an empty string throws. The string model's element type `Text` is instead the non-empty strings.
- `ComparisonModels.StringModel` compares first characters as Unicode scalar values, not as UTF-16 code units. Java's `charAt(0)` compares code units. For strings that start with the same high surrogate but different supplementary characters, Java finds them corresponding and the model does not. Strings holding lone surrogates cannot be represented. For strings of Basic Multilingual Plane characters, such as the test's, the two agree.
- `ComparatorFixtures.RingChange` states only that the rotation is not identical. The test's `check` call in that case repeats the swapped-ends input C,B,A, which `ComparatorFixtures.SwappedEnds` covers.
- `ComparatorLaws.SingleInsertion`, `ComparatorLaws.SingleRemoval`, `ComparatorLaws.SingleReplacement` and `ComparatorLaws.SwapOfTwo` state the fixtures' laws under a side condition: the elements involved must not be equal to later ones (`DistinctUnder` for the swap). Without it, the first-match rule can pair a duplicate differently.
- `XMLUtil` is not part of this model. `getChildElements` is taken as the element children in document order. `getChildElement(e, false, false, n)` is taken as a test for a child with local name `n`. `getAttribute(e, n, required)` is taken to treat an empty value as absent, and to fail when a required attribute is absent.
- `Schema`, `ComplexType`, `ComplexMember` and `Attribute` are not part of this model. They are plain datatypes. `Schema.getComplexType` is the first added type with the name, or absent.
- `parseSimpleType` and `parseSimpleContent` are TODO stubs in the source. The model reads only the simple type's name and ignores the simpleContent child.
- Comments, processing instructions and namespaces are not modelled. A node is an element or text, and names are matched on the local name.
- `Numerals.ParseInt` accepts ASCII digits only. `Integer.parseInt` also accepts other Unicode decimal digits.
- `SchemaLaws.CompositeMembers` gives the number of a composite type's members, not the members themselves. `SchemaLaws.CompositeMemberValues` gives the members.
- `SchemaLaws.ComplexTypeContents` gives the number of a composite type's members, not the members themselves. `SchemaLaws.ComplexTypeMembers` gives the members.
- `SchemaLaws.SchemaContents` gives the number of complex types and the member's name only. `SchemaLaws.SchemaComplexTypeAt` and `SchemaLaws.SchemaMemberAt` give the types and the member themselves.
- `SchemaLaws.SchemaComplexTypes` gives the number of appended complex types. `SchemaLaws.SchemaComplexTypeFrom` gives their contents.
- The rest of the repository is not modelled: FreeMarker scripting, fixed-width files, `DataUtil`, the HTML `TableRow` builder and `RegexCharClass`. They are I/O or wrappers around code not shown.
