/**
  The pluggable comparison contract of the array comparator (`ComparisonModel`)
  and the string model its tests use.
 */
module ComparisonModels {
  import opened Wrappers
  import opened Numerals

  /**
    What the comparator asks of its elements: strict equality, loose correspondence
    ("the same item, possibly changed") and the locator of an element by index.
    Registering key expressions is configuration the scalar model ignores.
   */
  datatype ComparisonModel<!T> = ComparisonModel(
    equal: (T, T) -> bool,
    correspond: (T, T) -> bool,
    subPath: (seq<T>, nat) -> string)

  /** The design rule every model is meant to follow: equal elements also correspond. */
  ghost predicate EqualImpliesCorrespond<T(!new)>(m: ComparisonModel<T>) {
    forall a, b :: m.equal(a, b) ==> m.correspond(a, b)
  }

  /** A string the string model can compare: `charAt(0)` needs at least one character. */
  type Text = s: string | |s| > 0 witness "?"

  /**
    The string model of the comparator's tests: equality is string equality,
    two strings correspond when they start with the same character, and the
    locator of index i is "[i]".
   */
  function StringModel(): ComparisonModel<Text> {
    ComparisonModel(
      (a: Text, b: Text) => a == b,
      (a: Text, b: Text) => a[0] == b[0],
      (arr: seq<Text>, i: nat) => "[" + Decimal(i) + "]")
  }

  /** The string model follows the design rule, and equal strings are what it calls equal. */
  lemma StringModelConsistent()
    ensures EqualImpliesCorrespond(StringModel())
    ensures forall a: Text, b: Text :: StringModel().equal(a, b) <==> a == b
  {
  }

  /** A string-model locator is the index in brackets, and the bracketed text parses back to the index. */
  lemma StringLocatorParsesBack(arr: seq<Text>, i: nat)
    requires i <= IntMax
    ensures var loc := StringModel().subPath(arr, i);
      && |loc| >= 3 && loc[0] == '[' && loc[|loc| - 1] == ']'
      && ParseInt(loc[1..|loc| - 1]) == Some(i)
  {
    var loc := StringModel().subPath(arr, i);
    assert loc[1..|loc| - 1] == Decimal(i);
    ParseIntOfDecimal(i);
  }
}
