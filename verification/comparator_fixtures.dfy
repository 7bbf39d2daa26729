/**
  The cases of `ArrayComparatorTest`, each stated with the string model, an
  empty base path and the diffs the test expects, in the expected order.
 */
module ComparatorFixtures {
  import opened Wrappers
  import opened Numerals
  import opened ComparisonModels
  import opened Diffs
  import opened Matching
  import opened ArrayComparator
  import opened ComparatorLaws

  const ABC: seq<Text> := ["A", "B", "C"]

  /** The locator the string model gives a single-digit index. */
  lemma Locator(arr: seq<Text>, i: nat)
    requires i < 10
    ensures "" + StringModel().subPath(arr, i) == ['[', DigitChar(i), ']']
  {
  }

  lemma StringsApart(s: seq<Text>)
    requires forall i, j :: 0 <= i < j < |s| ==> s[i] != s[j]
    ensures DistinctUnder(StringModel(), s)
  {
  }

  lemma IdenticalLists()
    ensures Compare(StringModel(), ABC, ["A", "B", "C"], "").Identical()
  {
  }

  lemma EmptyLists()
    ensures Compare(StringModel(), [], [], "").Identical()
  {
  }

  lemma RemovedLast()
    ensures Compare(StringModel(), ABC, ["A", "B"], "").diffs == [Diff<Text>.Missing("C", ListElement, "[2]")]
  {
    assert ABC[..2] + ABC[3..] == ["A", "B"];
    SingleRemoval(StringModel(), ABC, 2, "");
    Locator(ABC, 2);
  }

  lemma RemovedMiddle()
    ensures Compare(StringModel(), ABC, ["A", "C"], "").diffs == [Diff<Text>.Missing("B", ListElement, "[1]")]
  {
    assert ABC[..1] + ABC[2..] == ["A", "C"];
    SingleRemoval(StringModel(), ABC, 1, "");
    Locator(ABC, 1);
  }

  lemma RemovedFirst()
    ensures Compare(StringModel(), ABC, ["B", "C"], "").diffs == [Diff<Text>.Missing("A", ListElement, "[0]")]
  {
    assert ABC[..0] + ABC[1..] == ["B", "C"];
    SingleRemoval(StringModel(), ABC, 0, "");
    Locator(ABC, 0);
  }

  lemma AddedEnd()
    ensures Compare(StringModel(), ABC, ["A", "B", "C", "X"], "").diffs == [Diff<Text>.Unexpected("X", ListElement, "[3]")]
  {
    var right: seq<Text> := ["A", "B", "C", "X"];
    assert ABC[..3] + ["X"] + ABC[3..] == right;
    SingleInsertion(StringModel(), ABC, 3, "X", "");
    Locator(right, 3);
  }

  lemma AddedInBetween()
    ensures Compare(StringModel(), ABC, ["A", "X", "B", "C"], "").diffs == [Diff<Text>.Unexpected("X", ListElement, "[1]")]
  {
    var right: seq<Text> := ["A", "X", "B", "C"];
    assert ABC[..1] + ["X"] + ABC[1..] == right;
    SingleInsertion(StringModel(), ABC, 1, "X", "");
    Locator(right, 1);
  }

  lemma AddedBeginning()
    ensures Compare(StringModel(), ABC, ["X", "A", "B", "C"], "").diffs == [Diff<Text>.Unexpected("X", ListElement, "[0]")]
  {
    var right: seq<Text> := ["X", "A", "B", "C"];
    assert ABC[..0] + ["X"] + ABC[0..] == right;
    SingleInsertion(StringModel(), ABC, 0, "X", "");
    Locator(right, 0);
  }

  lemma SwappedNeighbours()
    ensures Compare(StringModel(), ABC, ["A", "C", "B"], "").diffs == [Diff<Text>.Moved("B", ListElement, "[1]", "[2]")]
  {
    var right: seq<Text> := ["A", "C", "B"];
    assert ABC[1 := ABC[2]][2 := ABC[1]] == right;
    StringsApart(ABC);
    SwapOfTwo(StringModel(), ABC, 1, 2, "");
    Locator(ABC, 1);
    Locator(right, 2);
  }

  lemma SwappedEnds()
    ensures !Compare(StringModel(), ABC, ["C", "B", "A"], "").Identical()
    ensures Compare(StringModel(), ABC, ["C", "B", "A"], "").diffs == [Diff<Text>.Moved("A", ListElement, "[0]", "[2]")]
  {
    var right: seq<Text> := ["C", "B", "A"];
    assert ABC[0 := ABC[2]][2 := ABC[0]] == right;
    StringsApart(ABC);
    SwapOfTwo(StringModel(), ABC, 0, 2, "");
    Locator(ABC, 0);
    Locator(right, 2);
  }

  /** The ring case only asserts that a rotation is not identical; its diff check repeats the swapped-ends case. */
  lemma RingChange()
    ensures !Compare(StringModel(), ABC, ["B", "C", "A"], "").Identical()
  {
    var right: seq<Text> := ["B", "C", "A"];
    assert !StringModel().equal(ABC[0], right[0]);
  }

  lemma Changed()
    ensures Compare(StringModel(), ABC, ["A", "B2", "C"], "").diffs == [Diff<Text>.Different("B", "B2", ListElement, "[1]")]
  {
    assert ABC[1 := "B2"] == ["A", "B2", "C"];
    SingleReplacement(StringModel(), ABC, 1, "B2", "");
    Locator(ABC, 1);
  }

  lemma RemovedAndAdded()
    ensures Compare(StringModel(), ABC, ["A", "X", "C"], "").diffs
      == [Diff<Text>.Missing("B", ListElement, "[1]"), Diff<Text>.Unexpected("X", ListElement, "[1]")]
  {
    var right: seq<Text> := ["A", "X", "C"];
    assert ABC[1 := "X"] == right;
    SingleReplacement(StringModel(), ABC, 1, "X", "");
    Locator(ABC, 1);
    Locator(right, 1);
  }

  lemma MovedAndChanged()
    ensures Compare(StringModel(), ABC, ["A", "C", "B2"], "").diffs
      == [Diff<Text>.Moved("B", ListElement, "[1]", "[2]"), Diff<Text>.Different("B", "B2", ListElement, "[1]")]
  {
    AlignMovedAndChanged();
    ReportMovedAndChanged();
  }

  const ACB2: seq<Text> := ["A", "C", "B2"]
  // The exact pass pairs A and C; B is left over and corresponds to B2.
  const Exact3: Partners := [Some(0), None, Some(1)]

  lemma Exact3Step(k: nat)
    requires k < 3
    ensures FirstFree(StringModel().equal, ABC[k], ACB2, State(Exact3, k), 0) == Exact3[k]
  {
    var s := State(Exact3, k);
    var eq := StringModel().equal;
    if k == 0 {
      FirstFreeIs(eq, ABC[0], ACB2, s, 0);
    } else if k == 1 {
      FirstFreeNone(eq, ABC[1], ACB2, s);
    } else {
      assert s == [Some(0), None, None];
      FirstFreeIs(eq, ABC[2], ACB2, s, 1);
    }
  }

  lemma Loose3Step()
    ensures FirstFree(StringModel().correspond, ABC[1], ACB2, Exact3, 0) == Some(2)
  {
    TakenAt(Exact3, 0, 0);
    TakenAt(Exact3, 2, 1);
    FirstFreeIs(StringModel().correspond, ABC[1], ACB2, Exact3, 2);
  }

  lemma AlignMovedAndChanged()
    ensures Align(Comparison(StringModel(), ABC, ACB2, "")) == Alignment(SwapPairing(3, 1, 2), {1})
  {
    MatchMovedAndChanged();
    SwapMoves(3, 1, 2);
  }

  /** A and C pair exactly, then B pairs loosely with B2. */
  lemma MatchMovedAndChanged()
    ensures Match(StringModel().equal, StringModel().correspond, ABC, ACB2) == SwapPairing(3, 1, 2)
  {
    var m := StringModel();
    Exact3Follows();
    Exact3Matching();
    MatchFollows(m.equal, m.correspond, ABC, ACB2, Exact3);
    Loose3Pass();
    Swap3Is();
  }

  lemma Exact3Follows()
    ensures forall k :: 0 <= k < 3 ==> FirstFree(StringModel().equal, ABC[k], ACB2, State(Exact3, k), 0) == Exact3[k]
  {
    forall k | 0 <= k < 3
      ensures FirstFree(StringModel().equal, ABC[k], ACB2, State(Exact3, k), 0) == Exact3[k]
    {
      Exact3Step(k);
    }
  }

  const Swap3: Partners := [Some(0), Some(2), Some(1)]

  lemma Loose3Pass()
    ensures IsMatching(Exact3, 3)
    ensures Pass(StringModel().correspond, ABC, ACB2, Exact3, 0) == Swap3
  {
    Exact3Matching();
    PassSingleGap(StringModel().correspond, ABC, ACB2, Exact3, 1, 0);
    Loose3Step();
    assert Exact3[1 := Some(2)] == Swap3;
  }

  lemma Swap3Is()
    ensures SwapPairing(3, 1, 2) == Swap3
  {
    var e := SwapPairing(3, 1, 2);
    assert e[0] == Some(0) && e[1] == Some(2) && e[2] == Some(1);
  }

  lemma Exact3Matching()
    ensures IsMatching(Exact3, 3)
  {
  }

  lemma ReportMovedAndChanged()
    ensures Fits(Comparison(StringModel(), ABC, ACB2, ""), Alignment(SwapPairing(3, 1, 2), {1}))
    ensures Report(Comparison(StringModel(), ABC, ACB2, ""), Alignment(SwapPairing(3, 1, 2), {1}), 0)
      == [Diff<Text>.Moved("B", ListElement, "[1]", "[2]"), Diff<Text>.Different("B", "B2", ListElement, "[1]")]
  {
    var c := Comparison(StringModel(), ABC, ACB2, "");
    var e := SwapPairing(3, 1, 2);
    var a := Alignment(e, {1});
    SwapShape(3, 1, 2);
    Locator(ABC, 1);
    Locator(ACB2, 2);
    assert DiffsAt(c, a, 0) == [];
    assert DiffsAt(c, a, 1) == [Diff<Text>.Moved("B", ListElement, "[1]", "[2]"), Diff<Text>.Different("B", "B2", ListElement, "[1]")];
    assert DiffsAt(c, a, 2) == [];
    ReportOnlyAt(c, a, 1, 0);
  }

  lemma AllChangeTypes()
    ensures Compare(StringModel(), ["A", "B", "C", "D", "E"], ["A", "X", "B", "D2", "C"], "").diffs
      == [Diff<Text>.Unexpected("X", ListElement, "[1]"),
          Diff<Text>.Moved("C", ListElement, "[2]", "[4]"),
          Diff<Text>.Different("D", "D2", ListElement, "[3]"),
          Diff<Text>.Missing("E", ListElement, "[4]")]
  {
    AlignFive();
    ReportFive();
  }

  lemma ReportFive()
    ensures Fits(Comparison(StringModel(), Left5, Right5, ""), Alignment(Loose5, {2}))
    ensures Report(Comparison(StringModel(), Left5, Right5, ""), Alignment(Loose5, {2}), 0)
      == [Diff<Text>.Unexpected("X", ListElement, "[1]"),
          Diff<Text>.Moved("C", ListElement, "[2]", "[4]"),
          Diff<Text>.Different("D", "D2", ListElement, "[3]"),
          Diff<Text>.Missing("E", ListElement, "[4]")]
  {
    var c := Comparison(StringModel(), Left5, Right5, "");
    var a := Alignment(Loose5, {2});
    FiveAt0();
    ReportFiveFrom1();
    assert Report(c, a, 0) == Report(c, a, 1);
  }

  lemma ReportFiveFrom1()
    ensures Fits(Comparison(StringModel(), Left5, Right5, ""), Alignment(Loose5, {2}))
    ensures Report(Comparison(StringModel(), Left5, Right5, ""), Alignment(Loose5, {2}), 1)
      == [Diff<Text>.Unexpected("X", ListElement, "[1]"),
          Diff<Text>.Moved("C", ListElement, "[2]", "[4]"),
          Diff<Text>.Different("D", "D2", ListElement, "[3]"),
          Diff<Text>.Missing("E", ListElement, "[4]")]
  {
    var c := Comparison(StringModel(), Left5, Right5, "");
    var a := Alignment(Loose5, {2});
    FiveAt1();
    ReportFiveFrom2();
    assert Report(c, a, 1) == DiffsAt(c, a, 1) + Report(c, a, 2);
  }

  lemma ReportFiveFrom2()
    ensures Fits(Comparison(StringModel(), Left5, Right5, ""), Alignment(Loose5, {2}))
    ensures Report(Comparison(StringModel(), Left5, Right5, ""), Alignment(Loose5, {2}), 2)
      == [Diff<Text>.Moved("C", ListElement, "[2]", "[4]"),
          Diff<Text>.Different("D", "D2", ListElement, "[3]"),
          Diff<Text>.Missing("E", ListElement, "[4]")]
  {
    var c := Comparison(StringModel(), Left5, Right5, "");
    var a := Alignment(Loose5, {2});
    FiveAt2();
    ReportFiveFrom3();
    assert Report(c, a, 2) == DiffsAt(c, a, 2) + Report(c, a, 3);
  }

  lemma ReportFiveFrom3()
    ensures Fits(Comparison(StringModel(), Left5, Right5, ""), Alignment(Loose5, {2}))
    ensures Report(Comparison(StringModel(), Left5, Right5, ""), Alignment(Loose5, {2}), 3)
      == [Diff<Text>.Different("D", "D2", ListElement, "[3]"), Diff<Text>.Missing("E", ListElement, "[4]")]
  {
    var c := Comparison(StringModel(), Left5, Right5, "");
    var a := Alignment(Loose5, {2});
    FiveAt3();
    FiveAt4();
    assert Report(c, a, 4) == DiffsAt(c, a, 4);
  }

  const Left5: seq<Text> := ["A", "B", "C", "D", "E"]
  const Right5: seq<Text> := ["A", "X", "B", "D2", "C"]
  // The exact pass pairs A, B and C; the loose pass pairs D with D2 and finds nothing for E.
  const Exact5: Partners := [Some(0), Some(2), Some(4), None, None]
  const Loose5: Partners := [Some(0), Some(2), Some(4), Some(3), None]

  lemma Exact5Step(k: nat)
    requires k < 5
    ensures FirstFree(StringModel().equal, Left5[k], Right5, State(Exact5, k), 0) == Exact5[k]
  {
    var s := State(Exact5, k);
    var eq := StringModel().equal;
    if k == 0 {
      FirstFreeIs(eq, Left5[0], Right5, s, 0);
    } else if k == 1 {
      assert s == [Some(0), None, None, None, None];
      FirstFreeIs(eq, Left5[1], Right5, s, 2);
    } else if k == 2 {
      assert s == [Some(0), Some(2), None, None, None];
      FirstFreeIs(eq, Left5[2], Right5, s, 4);
    } else {
      FirstFreeNone(eq, Left5[k], Right5, s);
    }
  }

  lemma Loose5Matching()
    ensures IsMatching(Exact5, 5) && IsMatching(Loose5, 5)
  {
    Exact5Matching();
    Loose5Distinct();
  }

  lemma Exact5Matching()
    ensures IsMatching(Exact5, 5)
  {
    assert Exact5 == Loose5[3 := None];
    Loose5Distinct();
  }

  lemma Loose5Distinct()
    ensures IsMatching(Loose5, 5)
  {
    forall i, k | 0 <= i < 5 && 0 <= k < 5 && i != k && Loose5[i].Some?
      ensures Loose5[i] != Loose5[k]
    {
      assert Loose5[i] == Some(if i == 3 then 3 else 2 * i);
    }
  }

  lemma Loose5Pass()
    ensures IsMatching(Exact5, 5)
    ensures Pass(StringModel().correspond, Left5, Right5, Exact5, 0) == Loose5
  {
    Loose5Matching();
    Loose5PassPaired();
    Loose5PassRest();
  }

  /** The loose pass skips A, B and C, which the exact pass paired. */
  lemma Loose5PassPaired()
    requires IsMatching(Exact5, 5)
    ensures Pass(StringModel().correspond, Left5, Right5, Exact5, 0) == Pass(StringModel().correspond, Left5, Right5, Exact5, 3)
  {
    PassSkipsPaired(StringModel().correspond, Left5, Right5, Exact5, 0, 3);
  }

  /** The loose pass pairs D with D2 and finds nothing for E. */
  lemma Loose5PassRest()
    requires IsMatching(Exact5, 5) && IsMatching(Loose5, 5)
    ensures Pass(StringModel().correspond, Left5, Right5, Exact5, 3) == Loose5
  {
    var co := StringModel().correspond;
    Loose5Step3();
    assert Exact5[3 := Some(3)] == Loose5;
    assert Pass(co, Left5, Right5, Exact5, 3) == Pass(co, Left5, Right5, Loose5, 4);
    Loose5Step4();
  }

  lemma Loose5Step3()
    ensures FirstFree(StringModel().correspond, Left5[3], Right5, Exact5, 0) == Some(3)
  {
    TakenAt(Exact5, 0, 0);
    TakenAt(Exact5, 1, 2);
    FirstFreeIs(StringModel().correspond, Left5[3], Right5, Exact5, 3);
  }

  lemma Loose5Step4()
    ensures FirstFree(StringModel().correspond, Left5[4], Right5, Loose5, 0) == None
  {
    TakenAt(Loose5, 0, 0);
    TakenAt(Loose5, 1, 2);
    TakenAt(Loose5, 3, 3);
    TakenAt(Loose5, 2, 4);
    FirstFreeNone(StringModel().correspond, Left5[4], Right5, Loose5);
  }

  lemma Loose5Owners()
    ensures Owner(Loose5, 0) == Some(0)
    ensures Owner(Loose5, 1) == None
    ensures Owner(Loose5, 2) == Some(1)
    ensures Owner(Loose5, 3) == Some(3)
    ensures Owner(Loose5, 4) == Some(2)
  {
    assert OwnerFrom(Loose5, 2, 0) == OwnerFrom(Loose5, 2, 1);
    assert OwnerFrom(Loose5, 3, 0) == OwnerFrom(Loose5, 3, 1) == OwnerFrom(Loose5, 3, 2) == OwnerFrom(Loose5, 3, 3);
    assert OwnerFrom(Loose5, 4, 0) == OwnerFrom(Loose5, 4, 1) == OwnerFrom(Loose5, 4, 2);
    assert !Taken(Loose5, 1);
  }

  lemma Loose5Moves()
    ensures Moves(PairedLeft(Loose5, 5), PairedRight(Loose5, 5)) == {2}
  {
    Loose5PairedLeft();
    Loose5PairedRight();
    assert [0, 1, 2, 3][2 := 3][3 := 2] == [0, 1, 3, 2];
    SwapMovesEarlier([0, 1, 2, 3], 2, 3);
  }

  lemma Loose5PairedLeft()
    ensures PairedLeft(Loose5, 5) == [0, 1, 2, 3]
  {
    assert PairedLeft(Loose5, 1) == [0];
    assert PairedLeft(Loose5, 2) == [0, 1];
    assert PairedLeft(Loose5, 3) == [0, 1, 2];
    assert PairedLeft(Loose5, 4) == [0, 1, 2, 3];
  }

  lemma Loose5PairedRight()
    ensures PairedRight(Loose5, 5) == [0, 1, 3, 2]
  {
    Loose5Owners();
    assert PairedRight(Loose5, 1) == [0];
    assert PairedRight(Loose5, 2) == [0];
    assert PairedRight(Loose5, 3) == [0, 1];
    assert PairedRight(Loose5, 4) == [0, 1, 3];
  }

  lemma AlignFive()
    ensures Align(Comparison(StringModel(), Left5, Right5, "")) == Alignment(Loose5, {2})
  {
    var m := StringModel();
    forall k | 0 <= k < 5
      ensures FirstFree(m.equal, Left5[k], Right5, State(Exact5, k), 0) == Exact5[k]
    {
      Exact5Step(k);
    }
    Loose5Pass();
    MatchFollows(m.equal, m.correspond, Left5, Right5, Exact5);
    Loose5Moves();
  }

  lemma FiveAt0()
    ensures Fits(Comparison(StringModel(), Left5, Right5, ""), Alignment(Loose5, {2}))
    ensures DiffsAt(Comparison(StringModel(), Left5, Right5, ""), Alignment(Loose5, {2}), 0) == []
  {
    TakenAt(Loose5, 0, 0);
  }

  lemma FiveAt1()
    ensures Fits(Comparison(StringModel(), Left5, Right5, ""), Alignment(Loose5, {2}))
    ensures DiffsAt(Comparison(StringModel(), Left5, Right5, ""), Alignment(Loose5, {2}), 1)
      == [Diff<Text>.Unexpected("X", ListElement, "[1]")]
  {
    assert !Taken(Loose5, 1);
    Locator(Right5, 1);
  }

  lemma FiveAt2()
    ensures Fits(Comparison(StringModel(), Left5, Right5, ""), Alignment(Loose5, {2}))
    ensures DiffsAt(Comparison(StringModel(), Left5, Right5, ""), Alignment(Loose5, {2}), 2)
      == [Diff<Text>.Moved("C", ListElement, "[2]", "[4]")]
  {
    TakenAt(Loose5, 1, 2);
    Locator(Left5, 2);
    Locator(Right5, 4);
  }

  lemma FiveAt3()
    ensures Fits(Comparison(StringModel(), Left5, Right5, ""), Alignment(Loose5, {2}))
    ensures DiffsAt(Comparison(StringModel(), Left5, Right5, ""), Alignment(Loose5, {2}), 3)
      == [Diff<Text>.Different("D", "D2", ListElement, "[3]")]
  {
    TakenAt(Loose5, 3, 3);
    Locator(Left5, 3);
  }

  lemma FiveAt4()
    ensures Fits(Comparison(StringModel(), Left5, Right5, ""), Alignment(Loose5, {2}))
    ensures DiffsAt(Comparison(StringModel(), Left5, Right5, ""), Alignment(Loose5, {2}), 4)
      == [Diff<Text>.Missing("E", ListElement, "[4]")]
  {
    TakenAt(Loose5, 2, 4);
    Locator(Left5, 4);
  }
}
