/**
  What the diffs of `compare` mean: every reported diff is accounted for by the
  pairing, and everything the pairing leaves unpaired, moved or changed is
  reported.
 */
module ComparatorReport {
  import opened ComparisonModels
  import opened Diffs
  import opened Matching
  import opened ArrayComparator

  /** The fact about the pairing that a diff reports. */
  ghost predicate Explains<T>(c: Comparison<T>, a: Alignment, d: Diff<T>)
    requires Fits(c, a)
  {
    match d
    case Missing(v, category, locator) =>
      category == ListElement
      && exists i :: 0 <= i < |c.left| && a.partners[i].None? && v == c.left[i] && locator == c.LeftLocator(i)
    case Unexpected(v, category, locator) =>
      category == ListElement
      && exists j :: 0 <= j < |c.right| && !Taken(a.partners, j) && v == c.right[j] && locator == c.RightLocator(j)
    case Moved(v, category, fromLocator, toLocator) =>
      category == ListElement
      && exists i :: 0 <= i < |c.left| && i in a.moved && a.partners[i].Some? && v == c.left[i]
           && fromLocator == c.LeftLocator(i) && toLocator == c.RightLocator(a.partners[i].value)
    case Different(v, w, category, locator) =>
      category == ListElement
      && exists i :: 0 <= i < |c.left| && a.partners[i].Some? && !c.model.equal(c.left[i], c.right[a.partners[i].value])
           && v == c.left[i] && w == c.right[a.partners[i].value] && locator == c.LeftLocator(i)
  }

  lemma ExplainedAt<T>(c: Comparison<T>, a: Alignment, t: nat, d: Diff<T>)
    requires Fits(c, a) && d in DiffsAt(c, a, t)
    ensures Explains(c, a, d)
  {
    if t < |c.left| && d in LeftDiffs(c, a, t) {
      match a.partners[t]
      case None =>
      case Some(j) =>
    } else {
      assert t < |c.right| && d in RightDiffs(c, a, t);
    }
  }

  /** Every diff `compare` reports stands for an unpaired, unclaimed, moved or changed element. */
  lemma ReportExplained<T>(m: ComparisonModel<T>, left: seq<T>, right: seq<T>, basePath: string, d: Diff<T>)
    requires d in Compare(m, left, right, basePath).diffs
    ensures var c := Comparison(m, left, right, basePath); Explains(c, Align(c), d)
  {
    var c := Comparison(m, left, right, basePath);
    var a := Align(c);
    InReport(c, a, 0, d);
    var t :| 0 <= t < c.Span() && d in DiffsAt(c, a, t);
    ExplainedAt(c, a, t, d);
  }

  /**
    Conversely, `compare` reports every left element left unpaired as missing,
    every right element left unclaimed as unexpected, every moved pair as moved
    and every pair that is not equal as different.
   */
  lemma ReportComplete<T>(m: ComparisonModel<T>, left: seq<T>, right: seq<T>, basePath: string)
    ensures var c := Comparison(m, left, right, basePath);
      var a := Align(c);
      var diffs := Compare(m, left, right, basePath).diffs;
      && (forall i :: 0 <= i < |left| && a.partners[i].None? ==>
            Missing(left[i], ListElement, c.LeftLocator(i)) in diffs)
      && (forall j :: 0 <= j < |right| && !Taken(a.partners, j) ==>
            Unexpected(right[j], ListElement, c.RightLocator(j)) in diffs)
      && (forall i :: 0 <= i < |left| && i in a.moved ==>
            Moved(left[i], ListElement, c.LeftLocator(i), c.RightLocator(a.partners[i].value)) in diffs)
      && (forall i :: 0 <= i < |left| && a.partners[i].Some? && !m.equal(left[i], right[a.partners[i].value]) ==>
            Different(left[i], right[a.partners[i].value], ListElement, c.LeftLocator(i)) in diffs)
  {
    var c := Comparison(m, left, right, basePath);
    var a := Align(c);
    forall i | 0 <= i < |left| && a.partners[i].None?
      ensures Missing(left[i], ListElement, c.LeftLocator(i)) in Report(c, a, 0)
    {
      ReportedAt(c, a, i, Missing(left[i], ListElement, c.LeftLocator(i)));
    }
    forall j | 0 <= j < |right| && !Taken(a.partners, j)
      ensures Unexpected(right[j], ListElement, c.RightLocator(j)) in Report(c, a, 0)
    {
      ReportedAt(c, a, j, Unexpected(right[j], ListElement, c.RightLocator(j)));
    }
    forall i | 0 <= i < |left| && i in a.moved
      ensures Moved(left[i], ListElement, c.LeftLocator(i), c.RightLocator(a.partners[i].value)) in Report(c, a, 0)
    {
      ReportedAt(c, a, i, Moved(left[i], ListElement, c.LeftLocator(i), c.RightLocator(a.partners[i].value)));
    }
    forall i | 0 <= i < |left| && a.partners[i].Some? && !m.equal(left[i], right[a.partners[i].value])
      ensures Different(left[i], right[a.partners[i].value], ListElement, c.LeftLocator(i)) in Report(c, a, 0)
    {
      ReportedAt(c, a, i, Different(left[i], right[a.partners[i].value], ListElement, c.LeftLocator(i)));
    }
  }

  lemma ReportedAt<T>(c: Comparison<T>, a: Alignment, t: nat, d: Diff<T>)
    requires Fits(c, a) && t < c.Span()
    requires (d.Missing? || d.Moved? || d.Different?) ==> t < |c.left| && d in LeftDiffs(c, a, t)
    requires d.Unexpected? ==> t < |c.right| && d in RightDiffs(c, a, t)
    ensures d in Report(c, a, 0)
  {
    assert d in DiffsAt(c, a, t);
    InReport(c, a, 0, d);
  }

  /** A reported change is between elements the model does not call equal but does find corresponding. */
  lemma DifferentCorresponds<T>(m: ComparisonModel<T>, left: seq<T>, right: seq<T>, basePath: string,
                                v: T, w: T, category: string, locator: string)
    requires Different(v, w, category, locator) in Compare(m, left, right, basePath).diffs
    ensures !m.equal(v, w) && m.correspond(v, w)
  {
    ReportExplained(m, left, right, basePath, Different(v, w, category, locator));
  }

  /**
    Nothing reported missing could have been paired with anything reported
    unexpected: the two are neither equal nor corresponding.
   */
  lemma LeftoversUnrelated<T>(m: ComparisonModel<T>, left: seq<T>, right: seq<T>, basePath: string,
                              x: T, cx: string, lx: string, y: T, cy: string, ly: string)
    requires Missing(x, cx, lx) in Compare(m, left, right, basePath).diffs
    requires Unexpected(y, cy, ly) in Compare(m, left, right, basePath).diffs
    ensures !m.equal(x, y) && !m.correspond(x, y)
  {
    ReportExplained(m, left, right, basePath, Missing(x, cx, lx));
    ReportExplained(m, left, right, basePath, Unexpected(y, cy, ly));
  }
}
