/**
  `ArrayComparator.compare`: pairs the elements of two arrays, classifies every
  element as unchanged, different, moved, missing or unexpected, and reports the
  diffs in one pass over the positions.
 */
module ArrayComparator {
  import opened Wrappers
  import opened ComparisonModels
  import opened Diffs
  import opened Matching

  /** The category the comparator gives every diff it reports. */
  const ListElement: string := "list element"

  /** The arguments of one `compare` call. */
  datatype Comparison<!T> = Comparison(model: ComparisonModel<T>, left: seq<T>, right: seq<T>, basePath: string) {

    function LeftLocator(i: nat): string {
      basePath + model.subPath(left, i)
    }

    function RightLocator(j: nat): string {
      basePath + model.subPath(right, j)
    }

    /** One past the last position the report visits. */
    function Span(): nat {
      if |left| < |right| then |right| else |left|
    }
  }

  /** What the comparator has decided before it reports: the pairing and the left indices of the moved pairs. */
  datatype Alignment = Alignment(partners: Partners, moved: set<nat>)

  ghost predicate Fits<T>(c: Comparison<T>, a: Alignment) {
    |a.partners| == |c.left| && IsMatching(a.partners, |c.right|)
  }

  /** Pair the elements, then judge the pairs' relative order. */
  function Align<T>(c: Comparison<T>): (a: Alignment)
    ensures Fits(c, a)
    ensures forall x :: x in a.moved ==> x < |c.left| && a.partners[x].Some?
  {
    var p := Match(c.model.equal, c.model.correspond, c.left, c.right);
    PairedLeftArePaired(p, |p|);
    Alignment(p, Moves(PairedLeft(p, |p|), PairedRight(p, |c.right|)))
  }

  /** What is reported at left index `i`: missing, or moved and/or different. */
  function LeftDiffs<T>(c: Comparison<T>, a: Alignment, i: nat): seq<Diff<T>>
    requires Fits(c, a) && i < |c.left|
  {
    match a.partners[i]
    case None => [Missing(c.left[i], ListElement, c.LeftLocator(i))]
    case Some(j) =>
      (if i in a.moved then [Moved(c.left[i], ListElement, c.LeftLocator(i), c.RightLocator(j))] else [])
      + (if c.model.equal(c.left[i], c.right[j]) then []
         else [Different(c.left[i], c.right[j], ListElement, c.LeftLocator(i))])
  }

  /** What is reported at right index `j`: unexpected, when no left element claimed it. */
  function RightDiffs<T>(c: Comparison<T>, a: Alignment, j: nat): seq<Diff<T>>
    requires j < |c.right|
  {
    if Taken(a.partners, j) then [] else [Unexpected(c.right[j], ListElement, c.RightLocator(j))]
  }

  /** Everything reported at position `k`: the left element's diffs first, then the right element's. */
  function DiffsAt<T>(c: Comparison<T>, a: Alignment, k: nat): seq<Diff<T>>
    requires Fits(c, a)
  {
    (if k < |c.left| then LeftDiffs(c, a, k) else [])
    + (if k < |c.right| then RightDiffs(c, a, k) else [])
  }

  /** The diffs of the positions from `k` on, in position order. */
  function Report<T>(c: Comparison<T>, a: Alignment, k: nat): seq<Diff<T>>
    requires Fits(c, a)
    decreases c.Span() - k
  {
    if k >= c.Span() then [] else DiffsAt(c, a, k) + Report(c, a, k + 1)
  }

  /**
    `ArrayComparator.compare(left, right, model, basePath, diffFactory)`. The
    result is identical exactly when both arrays have the same length and are
    pairwise equal under the model.
   */
  function Compare<T>(model: ComparisonModel<T>, left: seq<T>, right: seq<T>, basePath: string): (r: ComparisonResult<T>)
    ensures r.Identical() <==> |left| == |right| && forall i :: 0 <= i < |left| ==> model.equal(left[i], right[i])
  {
    var c := Comparison(model, left, right, basePath);
    IdenticalIffPairwiseEqual(c);
    ComparisonResult(Report(c, Align(c), 0))
  }

  // ---------------------------------------------------------------------------
  // Facts about the report

  /** The report from `k` is empty exactly when nothing is reported at any position from `k` on. */
  lemma {:induction false} ReportEmptyIff<T>(c: Comparison<T>, a: Alignment, k: nat)
    requires Fits(c, a)
    ensures Report(c, a, k) == [] <==> forall t :: k <= t < c.Span() ==> DiffsAt(c, a, t) == []
    decreases c.Span() - k
  {
    if k < c.Span() {
      ReportEmptyIff(c, a, k + 1);
    }
  }

  /** When only position `k0` reports anything, the report is what is reported there. */
  lemma {:induction false} ReportOnlyAt<T>(c: Comparison<T>, a: Alignment, k0: nat, k: nat)
    requires Fits(c, a) && k <= k0 < c.Span()
    requires forall t :: k <= t < c.Span() && t != k0 ==> DiffsAt(c, a, t) == []
    ensures Report(c, a, k) == DiffsAt(c, a, k0)
    decreases c.Span() - k
  {
    if k < k0 {
      ReportOnlyAt(c, a, k0, k + 1);
    } else {
      ReportEmptyIff(c, a, k + 1);
    }
  }

  /** A diff is in the report from `k` exactly when it is reported at some position from `k` on. */
  lemma {:induction false} InReport<T>(c: Comparison<T>, a: Alignment, k: nat, d: Diff<T>)
    requires Fits(c, a)
    ensures d in Report(c, a, k) <==> exists t :: k <= t < c.Span() && d in DiffsAt(c, a, t)
    decreases c.Span() - k
  {
    if k < c.Span() {
      InReport(c, a, k + 1, d);
      var here := DiffsAt(c, a, k);
      assert d in Report(c, a, k) <==> d in here || d in Report(c, a, k + 1);
      if d in here {
        assert k <= k < c.Span() && d in DiffsAt(c, a, k);
      }
    }
  }

  // ---------------------------------------------------------------------------
  // Identical results

  /** On pairwise equal arrays both passes pair every index with itself. */
  lemma MatchOfPairwiseEqual<T>(c: Comparison<T>)
    requires |c.left| == |c.right|
    requires forall i :: 0 <= i < |c.left| ==> c.model.equal(c.left[i], c.right[i])
    ensures Match(c.model.equal, c.model.correspond, c.left, c.right) == Identity(|c.left|)
  {
    PassOfPairwise(c.model.equal, c.left, c.right);
    IdentityIsMonotoneMatching(|c.left|);
    PassKeeps(c.model.correspond, c.left, c.right, Identity(|c.left|), 0);
  }

  /** Nothing is reported for arrays that are pairwise equal. */
  lemma IdentityReportsNothing<T>(c: Comparison<T>)
    requires |c.left| == |c.right|
    requires forall i :: 0 <= i < |c.left| ==> c.model.equal(c.left[i], c.right[i])
    ensures Report(c, Align(c), 0) == []
  {
    MatchOfPairwiseEqual(c);
    var a := Align(c);
    var p := a.partners;
    IdentityIsMonotoneMatching(|c.left|);
    MonotoneHasNoMoves(p, |c.right|);
    forall t | 0 <= t < c.Span()
      ensures DiffsAt(c, a, t) == []
    {
      assert p[t] == Some(t);
    }
    ReportEmptyIff(c, a, 0);
  }

  /** When the report is empty every left index is paired, unmoved, with an equal element, and every right index is claimed. */
  lemma EmptyReportMeansAllPaired<T>(c: Comparison<T>, a: Alignment)
    requires Fits(c, a) && Report(c, a, 0) == []
    ensures forall t :: 0 <= t < |c.left| ==>
      a.partners[t].Some? && t !in a.moved && c.model.equal(c.left[t], c.right[a.partners[t].value])
    ensures forall t :: 0 <= t < |c.right| ==> Taken(a.partners, t)
  {
    ReportEmptyIff(c, a, 0);
    forall t | 0 <= t < |c.left|
      ensures a.partners[t].Some? && t !in a.moved && c.model.equal(c.left[t], c.right[a.partners[t].value])
    {
      assert DiffsAt(c, a, t) == [];
      assert LeftDiffs(c, a, t) == [];
    }
    forall t | 0 <= t < |c.right|
      ensures Taken(a.partners, t)
    {
      assert DiffsAt(c, a, t) == [];
    }
  }

  /** An empty report means the arrays have the same length and are equal index by index. */
  lemma EmptyReportMeansPairwiseEqual<T>(c: Comparison<T>)
    requires Report(c, Align(c), 0) == []
    ensures |c.left| == |c.right|
    ensures forall i :: 0 <= i < |c.left| ==> c.model.equal(c.left[i], c.right[i])
  {
    var a := Align(c);
    var p := a.partners;
    EmptyReportMeansAllPaired(c, a);
    assert a.moved == {};
    OrderedBijectionIsIdentity(p, |c.right|);
    forall i | 0 <= i < |c.left|
      ensures c.model.equal(c.left[i], c.right[i])
    {
      assert p[i] == Some(i);
    }
  }

  /** The result of `compare` is identical exactly when the arrays are pairwise equal. */
  lemma IdenticalIffPairwiseEqual<T>(c: Comparison<T>)
    ensures Report(c, Align(c), 0) == [] <==>
      |c.left| == |c.right| && forall i :: 0 <= i < |c.left| ==> c.model.equal(c.left[i], c.right[i])
  {
    if Report(c, Align(c), 0) == [] {
      EmptyReportMeansPairwiseEqual(c);
    }
    if |c.left| == |c.right| && forall i :: 0 <= i < |c.left| ==> c.model.equal(c.left[i], c.right[i]) {
      IdentityReportsNothing(c);
    }
  }

  /** A monotone pairing is aligned with nothing moved. */
  lemma AlignMonotone<T>(c: Comparison<T>, e: Partners)
    requires Match(c.model.equal, c.model.correspond, c.left, c.right) == e
    requires Monotone(e)
    ensures Align(c) == Alignment(e, {})
  {
    MonotoneHasNoMoves(e, |c.right|);
  }

  /** A position whose left element is paired, unmoved, with an equal one and whose right element is claimed reports nothing. */
  lemma QuietPosition<T>(c: Comparison<T>, a: Alignment, t: nat)
    requires Fits(c, a)
    requires t < |c.left| ==> a.partners[t].Some? && t !in a.moved && c.model.equal(c.left[t], c.right[a.partners[t].value])
    requires t < |c.right| ==> Taken(a.partners, t)
    ensures DiffsAt(c, a, t) == []
  {
  }
}
