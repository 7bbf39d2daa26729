/**
  General laws of `compare` that the comparator's tests illustrate: a single
  removal, a single insertion, a single replacement and a single exchange of two
  elements are each reported as exactly the one diff the change calls for.
 */
module ComparatorLaws {
  import opened Wrappers
  import opened ComparisonModels
  import opened Diffs
  import opened Matching
  import opened ArrayComparator

  /** Elements that the model finds equal to themselves and to no other element of the array. */
  ghost predicate DistinctUnder<T>(m: ComparisonModel<T>, s: seq<T>) {
    forall i, j :: 0 <= i < |s| && 0 <= j < |s| ==> (m.equal(s[i], s[j]) <==> i == j)
  }

  lemma TakenAt(p: Partners, i: nat, j: nat)
    requires i < |p| && p[i] == Some(j)
    ensures Taken(p, j)
  {
  }

  /** Where the elements of an array with index `k` removed come from. */
  lemma RemovedAt<T>(s: seq<T>, k: nat, t: nat)
    requires k < |s| && t < |s| - 1
    ensures (s[..k] + s[k + 1..])[t] == if t < k then s[t] else s[t + 1]
  {
  }

  /** Where the elements of an array with `x` inserted at index `k` come from. */
  lemma InsertedAt<T>(s: seq<T>, k: nat, x: T, t: nat)
    requires k <= |s| && t <= |s|
    ensures (s[..k] + [x] + s[k..])[t] == if t < k then s[t] else if t == k then x else s[t - 1]
  {
  }

  // ---------------------------------------------------------------------------
  // Removing one element

  /** Pairing after left index `k` was removed: earlier indices keep their place, later ones shift down. */
  function RemovalPairing(n: nat, k: nat): Partners {
    seq(n, i => if i < k then Some(i) else if i == k then None else Some(i - 1))
  }

  lemma RemovalStep<T>(m: ComparisonModel<T>, left: seq<T>, k: nat, t: nat)
    requires k < |left| && t < |left|
    requires t != k ==> m.equal(left[t], left[t])
    requires t == k ==> forall i :: k < i < |left| ==> !m.equal(left[k], left[i])
    ensures var right := left[..k] + left[k + 1..];
      FirstFree(m.equal, left[t], right, State(RemovalPairing(|left|, k), t), 0) == RemovalPairing(|left|, k)[t]
  {
    var right := left[..k] + left[k + 1..];
    var s := State(RemovalPairing(|left|, k), t);
    if t < k {
      forall j | 0 <= j < t ensures Taken(s, j) { TakenAt(s, j, j); }
      FirstFreeIs(m.equal, left[t], right, s, t);
    } else if t == k {
      forall j | 0 <= j < |right| ensures !m.equal(left[t], right[j]) || Taken(s, j) {
        RemovedAt(left, k, j);
        if j < k { TakenAt(s, j, j); }
      }
      FirstFreeNone(m.equal, left[t], right, s);
    } else {
      forall j | 0 <= j < t - 1 ensures Taken(s, j) {
        if j < k { TakenAt(s, j, j); } else { TakenAt(s, j + 1, j); }
      }
      FirstFreeIs(m.equal, left[t], right, s, t - 1);
    }
  }

  lemma RemovalShape(n: nat, k: nat)
    requires k < n
    ensures IsMatching(RemovalPairing(n, k), n - 1) && Monotone(RemovalPairing(n, k))
    ensures forall j :: 0 <= j < n - 1 ==> Taken(RemovalPairing(n, k), j)
  {
    var e := RemovalPairing(n, k);
    forall j | 0 <= j < n - 1 ensures Taken(e, j) {
      if j < k { TakenAt(e, j, j); } else { TakenAt(e, j + 1, j); }
    }
  }

  /** After removing left index `k`, every left index but `k` is paired with the element it became. */
  lemma RemovalMatch<T>(m: ComparisonModel<T>, left: seq<T>, k: nat)
    requires k < |left|
    requires forall i :: 0 <= i < |left| && i != k ==> m.equal(left[i], left[i])
    requires forall i :: k < i < |left| ==> !m.equal(left[k], left[i])
    ensures Match(m.equal, m.correspond, left, left[..k] + left[k + 1..]) == RemovalPairing(|left|, k)
  {
    var right := left[..k] + left[k + 1..];
    var e := RemovalPairing(|left|, k);
    RemovalShape(|left|, k);
    forall t | 0 <= t < |left|
      ensures FirstFree(m.equal, left[t], right, State(e, t), 0) == e[t]
    {
      RemovalStep(m, left, k, t);
    }
    MatchFollows(m.equal, m.correspond, left, right, e);
    FirstFreeNone(m.correspond, left[k], right, e);
    PassKeeps(m.correspond, left, right, e, 0);
  }

  /**
    Removing the element at `k` is reported as exactly one missing diff at `k`,
    provided the model finds the remaining elements equal to themselves and the
    removed one equal to none after it.
   */
  lemma SingleRemoval<T>(m: ComparisonModel<T>, left: seq<T>, k: nat, basePath: string)
    requires k < |left|
    requires forall i :: 0 <= i < |left| && i != k ==> m.equal(left[i], left[i])
    requires forall i :: k < i < |left| ==> !m.equal(left[k], left[i])
    ensures Compare(m, left, left[..k] + left[k + 1..], basePath).diffs
      == [Missing(left[k], ListElement, basePath + m.subPath(left, k))]
  {
    var right := left[..k] + left[k + 1..];
    var c := Comparison(m, left, right, basePath);
    var e := RemovalPairing(|left|, k);
    RemovalMatch(m, left, k);
    RemovalShape(|left|, k);
    AlignMonotone(c, e);
    var a := Alignment(e, {});
    forall t | 0 <= t < c.Span() && t != k
      ensures DiffsAt(c, a, t) == []
    {
      RemovalQuiet(c, k, t);
    }
    ReportOnlyAt(c, a, k, 0);
    assert DiffsAt(c, a, k) == [Missing(left[k], ListElement, c.LeftLocator(k))];
  }

  lemma RemovalQuiet<T>(c: Comparison<T>, k: nat, t: nat)
    requires k < |c.left| && c.right == c.left[..k] + c.left[k + 1..]
    requires forall i :: 0 <= i < |c.left| && i != k ==> c.model.equal(c.left[i], c.left[i])
    requires IsMatching(RemovalPairing(|c.left|, k), |c.right|)
    requires forall j :: 0 <= j < |c.right| ==> Taken(RemovalPairing(|c.left|, k), j)
    requires t < c.Span() && t != k
    ensures DiffsAt(c, Alignment(RemovalPairing(|c.left|, k), {}), t) == []
  {
    var e := RemovalPairing(|c.left|, k);
    if t < k {
      RemovedAt(c.left, k, t);
    } else {
      RemovedAt(c.left, k, t - 1);
    }
    QuietPosition(c, Alignment(e, {}), t);
  }

  // ---------------------------------------------------------------------------
  // Inserting one element

  /** Pairing after `x` was inserted at right index `k`: later left indices shift up by one. */
  function InsertionPairing(n: nat, k: nat): Partners {
    seq(n, i => if i < k then Some(i) else Some(i + 1))
  }

  lemma InsertionStep<T>(m: ComparisonModel<T>, left: seq<T>, k: nat, x: T, t: nat)
    requires k <= |left| && t < |left|
    requires m.equal(left[t], left[t])
    requires t >= k ==> !m.equal(left[t], x)
    ensures var right := left[..k] + [x] + left[k..];
      FirstFree(m.equal, left[t], right, State(InsertionPairing(|left|, k), t), 0) == InsertionPairing(|left|, k)[t]
  {
    var right := left[..k] + [x] + left[k..];
    var s := State(InsertionPairing(|left|, k), t);
    if t < k {
      forall j | 0 <= j < t ensures Taken(s, j) { TakenAt(s, j, j); }
      FirstFreeIs(m.equal, left[t], right, s, t);
    } else {
      forall j | 0 <= j < t + 1 ensures !m.equal(left[t], right[j]) || Taken(s, j) {
        if j < k { TakenAt(s, j, j); } else if j > k { TakenAt(s, j - 1, j); }
      }
      FirstFreeIs(m.equal, left[t], right, s, t + 1);
    }
  }

  lemma InsertionShape(n: nat, k: nat)
    requires k <= n
    ensures IsMatching(InsertionPairing(n, k), n + 1) && Monotone(InsertionPairing(n, k))
    ensures forall j :: 0 <= j < n + 1 && j != k ==> Taken(InsertionPairing(n, k), j)
  {
    var e := InsertionPairing(n, k);
    forall j | 0 <= j < n + 1 && j != k ensures Taken(e, j) {
      if j < k { TakenAt(e, j, j); } else { TakenAt(e, j - 1, j); }
    }
  }

  lemma InsertionMatch<T>(m: ComparisonModel<T>, left: seq<T>, k: nat, x: T)
    requires k <= |left|
    requires forall i :: 0 <= i < |left| ==> m.equal(left[i], left[i])
    requires forall i :: k <= i < |left| ==> !m.equal(left[i], x)
    ensures Match(m.equal, m.correspond, left, left[..k] + [x] + left[k..]) == InsertionPairing(|left|, k)
  {
    var right := left[..k] + [x] + left[k..];
    var e := InsertionPairing(|left|, k);
    InsertionShape(|left|, k);
    forall t | 0 <= t < |left|
      ensures FirstFree(m.equal, left[t], right, State(e, t), 0) == e[t]
    {
      InsertionStep(m, left, k, x, t);
    }
    MatchFollows(m.equal, m.correspond, left, right, e);
    PassKeeps(m.correspond, left, right, e, 0);
  }

  /**
    Inserting `x` at `k` is reported as exactly one unexpected diff at `k`,
    provided the model finds every element equal to itself and `x` equal to none
    of the elements it was inserted before.
   */
  lemma SingleInsertion<T>(m: ComparisonModel<T>, left: seq<T>, k: nat, x: T, basePath: string)
    requires k <= |left|
    requires forall i :: 0 <= i < |left| ==> m.equal(left[i], left[i])
    requires forall i :: k <= i < |left| ==> !m.equal(left[i], x)
    ensures var right := left[..k] + [x] + left[k..];
      Compare(m, left, right, basePath).diffs == [Unexpected(x, ListElement, basePath + m.subPath(right, k))]
  {
    var right := left[..k] + [x] + left[k..];
    var c := Comparison(m, left, right, basePath);
    var e := InsertionPairing(|left|, k);
    InsertionMatch(m, left, k, x);
    InsertionShape(|left|, k);
    AlignMonotone(c, e);
    var a := Alignment(e, {});
    forall t | 0 <= t < c.Span() && t != k
      ensures DiffsAt(c, a, t) == []
    {
      InsertionQuiet(c, k, x, t);
    }
    ReportOnlyAt(c, a, k, 0);
    InsertionAt(c, k, x);
  }

  lemma InsertionAt<T>(c: Comparison<T>, k: nat, x: T)
    requires k <= |c.left| && c.right == c.left[..k] + [x] + c.left[k..]
    requires forall i :: 0 <= i < |c.left| ==> c.model.equal(c.left[i], c.left[i])
    requires forall i :: k <= i < |c.left| ==> !c.model.equal(c.left[i], x)
    requires Fits(c, Alignment(InsertionPairing(|c.left|, k), {}))
    ensures DiffsAt(c, Alignment(InsertionPairing(|c.left|, k), {}), k) == [Unexpected(x, ListElement, c.RightLocator(k))]
  {
    var e := InsertionPairing(|c.left|, k);
    InsertedAt(c.left, k, x, k);
    if k < |c.left| {
      InsertedAt(c.left, k, x, k + 1);
    }
    assert !Taken(e, k);
  }

  lemma InsertionQuiet<T>(c: Comparison<T>, k: nat, x: T, t: nat)
    requires k <= |c.left| && c.right == c.left[..k] + [x] + c.left[k..]
    requires forall i :: 0 <= i < |c.left| ==> c.model.equal(c.left[i], c.left[i])
    requires IsMatching(InsertionPairing(|c.left|, k), |c.right|)
    requires forall j :: 0 <= j < |c.right| && j != k ==> Taken(InsertionPairing(|c.left|, k), j)
    requires t < c.Span() && t != k
    ensures DiffsAt(c, Alignment(InsertionPairing(|c.left|, k), {}), t) == []
  {
    var e := InsertionPairing(|c.left|, k);
    if t < |c.left| {
      if t < k {
        InsertedAt(c.left, k, x, t);
      } else {
        InsertedAt(c.left, k, x, t + 1);
      }
    }
    QuietPosition(c, Alignment(e, {}), t);
  }

  // ---------------------------------------------------------------------------
  // Replacing one element

  /** The exact pass after left index `k` was replaced: every other index keeps its place. */
  function GapPairing(n: nat, k: nat): Partners {
    seq(n, i => if i == k then None else Some(i))
  }

  lemma ReplacementStep<T>(m: ComparisonModel<T>, left: seq<T>, k: nat, y: T, t: nat)
    requires k < |left| && t < |left|
    requires t != k ==> m.equal(left[t], left[t])
    requires t > k ==> !m.equal(left[t], y)
    requires t == k ==> !m.equal(left[k], y) && forall i :: k < i < |left| ==> !m.equal(left[k], left[i])
    ensures FirstFree(m.equal, left[t], left[k := y], State(GapPairing(|left|, k), t), 0) == GapPairing(|left|, k)[t]
  {
    var right := left[k := y];
    var s := State(GapPairing(|left|, k), t);
    if t == k {
      forall j | 0 <= j < |right| ensures !m.equal(left[t], right[j]) || Taken(s, j) {
        if j < k { TakenAt(s, j, j); }
      }
      FirstFreeNone(m.equal, left[t], right, s);
    } else {
      forall j | 0 <= j < t ensures !m.equal(left[t], right[j]) || Taken(s, j) {
        if j != k { TakenAt(s, j, j); }
      }
      FirstFreeIs(m.equal, left[t], right, s, t);
    }
  }

  lemma GapShape(n: nat, k: nat)
    requires k < n
    ensures IsMatching(GapPairing(n, k), n) && Monotone(GapPairing(n, k))
    ensures forall j :: 0 <= j < n && j != k ==> Taken(GapPairing(n, k), j)
    ensures !Taken(GapPairing(n, k), k)
  {
    var e := GapPairing(n, k);
    forall j | 0 <= j < n && j != k ensures Taken(e, j) {
      TakenAt(e, j, j);
    }
  }

  /** After replacing `k` by `y`, the exact pass pairs every other index with itself and the loose pass decides `k`. */
  lemma ReplacementMatch<T>(m: ComparisonModel<T>, left: seq<T>, k: nat, y: T)
    requires k < |left|
    requires forall i :: 0 <= i < |left| && i != k ==> m.equal(left[i], left[i])
    requires !m.equal(left[k], y)
    requires forall i :: k < i < |left| ==> !m.equal(left[k], left[i]) && !m.equal(left[i], y)
    ensures Match(m.equal, m.correspond, left, left[k := y])
      == if m.correspond(left[k], y) then Identity(|left|) else GapPairing(|left|, k)
  {
    var right := left[k := y];
    var e := GapPairing(|left|, k);
    GapShape(|left|, k);
    forall t | 0 <= t < |left|
      ensures FirstFree(m.equal, left[t], right, State(e, t), 0) == e[t]
    {
      ReplacementStep(m, left, k, y, t);
    }
    MatchFollows(m.equal, m.correspond, left, right, e);
    PassSingleGap(m.correspond, left, right, e, k, 0);
    if m.correspond(left[k], y) {
      FirstFreeIs(m.correspond, left[k], right, e, k);
      assert e[k := Some(k)] == Identity(|left|);
    } else {
      FirstFreeNone(m.correspond, left[k], right, e);
    }
  }

  /** Away from `k` a replacement reports nothing, so the whole report is what `k` reports. */
  lemma ReplacementReport<T>(c: Comparison<T>, k: nat)
    requires k < |c.left| && |c.right| == |c.left|
    requires var e := Match(c.model.equal, c.model.correspond, c.left, c.right);
      e == Identity(|c.left|) || e == GapPairing(|c.left|, k)
    requires forall i :: 0 <= i < |c.left| && i != k ==> c.right[i] == c.left[i] && c.model.equal(c.left[i], c.left[i])
    ensures Fits(c, Align(c)) && Report(c, Align(c), 0) == DiffsAt(c, Align(c), k)
  {
    var e := Match(c.model.equal, c.model.correspond, c.left, c.right);
    GapShape(|c.left|, k);
    IdentityIsMonotoneMatching(|c.left|);
    AlignMonotone(c, e);
    var a := Alignment(e, {});
    forall t | 0 <= t < c.Span() && t != k
      ensures DiffsAt(c, a, t) == []
    {
      assert e[t] == Some(t);
      QuietPosition(c, a, t);
    }
    ReportOnlyAt(c, a, k, 0);
  }

  /**
    Replacing the element at `k` by `y` is reported as one different diff at `k`
    when the two correspond, and otherwise as a missing diff followed by an
    unexpected one, both at `k`.
   */
  lemma SingleReplacement<T>(m: ComparisonModel<T>, left: seq<T>, k: nat, y: T, basePath: string)
    requires k < |left|
    requires forall i :: 0 <= i < |left| && i != k ==> m.equal(left[i], left[i])
    requires !m.equal(left[k], y)
    requires forall i :: k < i < |left| ==> !m.equal(left[k], left[i]) && !m.equal(left[i], y)
    ensures m.correspond(left[k], y) ==>
      (Compare(m, left, left[k := y], basePath).diffs
        == [Different(left[k], y, ListElement, basePath + m.subPath(left, k))])
    ensures !m.correspond(left[k], y) ==>
      (Compare(m, left, left[k := y], basePath).diffs
        == [Missing(left[k], ListElement, basePath + m.subPath(left, k)),
            Unexpected(y, ListElement, basePath + m.subPath(left[k := y], k))])
  {
    var c := Comparison(m, left, left[k := y], basePath);
    ReplacementMatch(m, left, k, y);
    ReplacementReport(c, k);
    AlignMonotoneMoves(c, k);
    var n := |left|;
    if m.correspond(left[k], y) {
      assert Align(c) == Alignment(Identity(n), {});
      ReplacementChanged(c, k, y);
    } else {
      assert Align(c) == Alignment(GapPairing(n, k), {});
      ReplacementGap(c, k, y);
    }
  }

  /** With the replaced pair kept, position `k` reports one change. */
  lemma ReplacementChanged<T>(c: Comparison<T>, k: nat, y: T)
    requires k < |c.left| && c.right == c.left[k := y] && !c.model.equal(c.left[k], y)
    requires Fits(c, Alignment(Identity(|c.left|), {}))
    ensures DiffsAt(c, Alignment(Identity(|c.left|), {}), k) == [Different(c.left[k], y, ListElement, c.LeftLocator(k))]
  {
    assert Identity(|c.left|)[k] == Some(k);
  }

  /** With the replaced pair left out, position `k` reports the old element missing and the new one unexpected. */
  lemma ReplacementGap<T>(c: Comparison<T>, k: nat, y: T)
    requires k < |c.left| && c.right == c.left[k := y]
    requires Fits(c, Alignment(GapPairing(|c.left|, k), {}))
    ensures DiffsAt(c, Alignment(GapPairing(|c.left|, k), {}), k)
      == [Missing(c.left[k], ListElement, c.LeftLocator(k)), Unexpected(y, ListElement, c.RightLocator(k))]
  {
    GapShape(|c.left|, k);
    assert GapPairing(|c.left|, k)[k].None?;
  }

  lemma AlignMonotoneMoves<T>(c: Comparison<T>, k: nat)
    requires k < |c.left| && |c.right| == |c.left|
    requires var e := Match(c.model.equal, c.model.correspond, c.left, c.right);
      e == Identity(|c.left|) || e == GapPairing(|c.left|, k)
    ensures Align(c).moved == {}
  {
    var e := Match(c.model.equal, c.model.correspond, c.left, c.right);
    GapShape(|c.left|, k);
    IdentityIsMonotoneMatching(|c.left|);
    AlignMonotone(c, e);
  }

  // ---------------------------------------------------------------------------
  // Exchanging two elements

  /** Pairing after the elements at `a` and `b` changed places. */
  function SwapPairing(n: nat, a: nat, b: nat): Partners {
    seq(n, i => if i == a then Some(b) else if i == b then Some(a) else Some(i))
  }

  lemma SwapStep<T>(m: ComparisonModel<T>, left: seq<T>, a: nat, b: nat, t: nat)
    requires a < b < |left| && t < |left|
    requires DistinctUnder(m, left)
    ensures var right := left[a := left[b]][b := left[a]];
      FirstFree(m.equal, left[t], right, State(SwapPairing(|left|, a, b), t), 0) == SwapPairing(|left|, a, b)[t]
  {
    var right := left[a := left[b]][b := left[a]];
    var e := SwapPairing(|left|, a, b);
    var s := State(e, t);
    var j := e[t].value;
    forall i | 0 <= i < j ensures !m.equal(left[t], right[i]) || Taken(s, i) {
      if i < t && i != a && i != b {
        TakenAt(s, i, i);
      } else if i == a && b < t {
        TakenAt(s, b, a);
      }
    }
    FirstFreeIs(m.equal, left[t], right, s, j);
  }

  lemma SwapShape(n: nat, a: nat, b: nat)
    requires a < b < n
    ensures IsMatching(SwapPairing(n, a, b), n)
    ensures forall j :: 0 <= j < n ==> Taken(SwapPairing(n, a, b), j)
  {
    var e := SwapPairing(n, a, b);
    forall j | 0 <= j < n ensures Taken(e, j) {
      if j == a { TakenAt(e, b, a); } else if j == b { TakenAt(e, a, b); } else { TakenAt(e, j, j); }
    }
  }

  lemma SwapMatch<T>(m: ComparisonModel<T>, left: seq<T>, a: nat, b: nat)
    requires a < b < |left|
    requires DistinctUnder(m, left)
    ensures Match(m.equal, m.correspond, left, left[a := left[b]][b := left[a]]) == SwapPairing(|left|, a, b)
  {
    var right := left[a := left[b]][b := left[a]];
    var e := SwapPairing(|left|, a, b);
    SwapShape(|left|, a, b);
    forall t | 0 <= t < |left|
      ensures FirstFree(m.equal, left[t], right, State(e, t), 0) == e[t]
    {
      SwapStep(m, left, a, b, t);
    }
    MatchFollows(m.equal, m.correspond, left, right, e);
    PassKeeps(m.correspond, left, right, e, 0);
  }

  /** The moves of a swap: exactly the earlier of the two exchanged left indices. */
  lemma SwapMoves(n: nat, a: nat, b: nat)
    requires a < b < n
    ensures Moves(PairedLeft(SwapPairing(n, a, b), n), PairedRight(SwapPairing(n, a, b), n)) == {a}
  {
    var e := SwapPairing(n, a, b);
    var lp := PairedLeft(e, n);
    var rp := PairedRight(e, n);
    forall j | 0 <= j < n ensures Taken(e, j) {
      if j == a { TakenAt(e, b, a); } else if j == b { TakenAt(e, a, b); } else { TakenAt(e, j, j); }
    }
    PairedLeftAll(e, n);
    PairedRightAll(e, n);
    assert rp == lp[a := lp[b]][b := lp[a]];
    SwapMovesEarlier(lp, a, b);
  }

  /**
    Exchanging the elements at `a < b` of an array whose elements the model tells
    apart is reported as exactly one moved diff: the element that was at `a`,
    from `a` to `b`.
   */
  lemma SwapOfTwo<T>(m: ComparisonModel<T>, left: seq<T>, a: nat, b: nat, basePath: string)
    requires a < b < |left|
    requires DistinctUnder(m, left)
    ensures var right := left[a := left[b]][b := left[a]];
      Compare(m, left, right, basePath).diffs
        == [Moved(left[a], ListElement, basePath + m.subPath(left, a), basePath + m.subPath(right, b))]
  {
    var right := left[a := left[b]][b := left[a]];
    var c := Comparison(m, left, right, basePath);
    SwapAlign(c, a, b);
    var al := Alignment(SwapPairing(|left|, a, b), {a});
    forall t | 0 <= t < c.Span() && t != a
      ensures DiffsAt(c, al, t) == []
    {
      SwapQuiet(c, a, b, t);
    }
    ReportOnlyAt(c, al, a, 0);
    SwapAt(c, a, b);
  }

  lemma SwapAlign<T>(c: Comparison<T>, a: nat, b: nat)
    requires a < b < |c.left| && DistinctUnder(c.model, c.left)
    requires c.right == c.left[a := c.left[b]][b := c.left[a]]
    ensures Align(c) == Alignment(SwapPairing(|c.left|, a, b), {a})
    ensures Fits(c, Align(c))
  {
    SwapMatch(c.model, c.left, a, b);
    SwapMoves(|c.left|, a, b);
    SwapShape(|c.left|, a, b);
  }

  lemma SwapQuiet<T>(c: Comparison<T>, a: nat, b: nat, t: nat)
    requires a < b < |c.left| && DistinctUnder(c.model, c.left)
    requires c.right == c.left[a := c.left[b]][b := c.left[a]]
    requires t < |c.left| && t != a
    ensures Fits(c, Alignment(SwapPairing(|c.left|, a, b), {a}))
    ensures DiffsAt(c, Alignment(SwapPairing(|c.left|, a, b), {a}), t) == []
  {
    SwapShape(|c.left|, a, b);
    QuietPosition(c, Alignment(SwapPairing(|c.left|, a, b), {a}), t);
  }

  lemma SwapAt<T>(c: Comparison<T>, a: nat, b: nat)
    requires a < b < |c.left| && DistinctUnder(c.model, c.left)
    requires c.right == c.left[a := c.left[b]][b := c.left[a]]
    ensures Fits(c, Alignment(SwapPairing(|c.left|, a, b), {a}))
    ensures DiffsAt(c, Alignment(SwapPairing(|c.left|, a, b), {a}), a)
      == [Moved(c.left[a], ListElement, c.LeftLocator(a), c.RightLocator(b))]
  {
    SwapShape(|c.left|, a, b);
  }
}
