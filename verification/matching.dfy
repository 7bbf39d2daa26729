/**
  Pairing the elements of two arrays, and deciding which pairs moved.

  A pairing gives each left index at most one right partner. The comparator
  builds it in two greedy passes: first exact matches (`equal`), then loose ones
  (`correspond`) among the elements the first pass left over.
 */
module Matching {
  import opened Wrappers

  /** For each left index, the right index it is paired with, if any. */
  type Partners = seq<Option<nat>>

  /** Right index `j` already has a left partner. */
  predicate Taken(p: Partners, j: nat) {
    Some(j) in p
  }

  /** Partners lie within the right array and no right index is claimed twice. */
  ghost predicate IsMatching(p: Partners, width: nat) {
    && (forall i :: 0 <= i < |p| && p[i].Some? ==> p[i].value < width)
    && (forall i, k :: 0 <= i < |p| && 0 <= k < |p| && i != k && p[i].Some? ==> p[i] != p[k])
  }

  /** No left index below `upTo` that is still unpaired is accepted by `pred` for a still unclaimed right index. */
  ghost predicate Saturated<T>(pred: (T, T) -> bool, left: seq<T>, right: seq<T>, p: Partners, upTo: nat)
    requires |p| == |left|
  {
    forall k, j :: 0 <= k < upTo && k < |left| && p[k].None? && 0 <= j < |right| && !Taken(p, j)
      ==> !pred(left[k], right[j])
  }

  function Unpaired(n: nat): Partners {
    seq(n, _ => None)
  }

  /** The first right index at or after `j` that is still unclaimed and that `pred` accepts for `x`. */
  function FirstFree<T>(pred: (T, T) -> bool, x: T, right: seq<T>, p: Partners, j: nat): (r: Option<nat>)
    requires j <= |right|
    ensures r.Some? ==> j <= r.value < |right| && pred(x, right[r.value]) && !Taken(p, r.value)
    ensures forall k :: j <= k < |right| && (r.None? || k < r.value) ==> !pred(x, right[k]) || Taken(p, k)
    decreases |right| - j
  {
    if j == |right| then None
    else if pred(x, right[j]) && !Taken(p, j) then Some(j)
    else FirstFree(pred, x, right, p, j + 1)
  }

  /** Pairs already made survive a pass, so a right index claimed before stays claimed. */
  lemma TakenPersists(p: Partners, r: Partners)
    requires |p| == |r|
    requires forall k :: 0 <= k < |p| && p[k].Some? ==> r[k] == p[k]
    ensures forall j: nat :: Taken(p, j) ==> Taken(r, j)
  {
    forall j: nat | Taken(p, j)
      ensures Taken(r, j)
    {
      var k :| 0 <= k < |p| && p[k] == Some(j);
      assert r[k] == Some(j);
    }
  }

  /**
    One greedy pass: the left indices from `i` on that have no partner yet, in
    ascending order, each claim the first still unclaimed right index that `pred`
    accepts, and stay unpaired when there is none.
   */
  function Pass<T>(pred: (T, T) -> bool, left: seq<T>, right: seq<T>, p: Partners, i: nat): (r: Partners)
    requires |p| == |left| && i <= |left| && IsMatching(p, |right|)
    ensures |r| == |left| && IsMatching(r, |right|)
    ensures forall k :: 0 <= k < |left| && (p[k].Some? || k < i) ==> r[k] == p[k]
    ensures forall k :: 0 <= k < |left| && p[k].None? && r[k].Some? ==> pred(left[k], right[r[k].value])
    ensures Saturated(pred, left, right, p, i) ==> Saturated(pred, left, right, r, |left|)
    decreases |left| - i
  {
    if i == |left| then p
    else if p[i].Some? then Pass(pred, left, right, p, i + 1)
    else match FirstFree(pred, left[i], right, p, 0)
      case None => Pass(pred, left, right, p, i + 1)
      case Some(j) =>
        var q := p[i := Some(j)];
        TakenPersists(p, q);
        Pass(pred, left, right, q, i + 1)
  }

  /**
    The pairing of `compare`: exact matches first, then correspondences among the
    leftovers. Every pair is equal or corresponding, and no element left unpaired
    on the left is equal or corresponding to one left unpaired on the right.
   */
  function Match<T>(equal: (T, T) -> bool, correspond: (T, T) -> bool, left: seq<T>, right: seq<T>): (p: Partners)
    ensures |p| == |left| && IsMatching(p, |right|)
    ensures forall i :: 0 <= i < |left| && p[i].Some? ==>
      equal(left[i], right[p[i].value]) || correspond(left[i], right[p[i].value])
    ensures forall i, j :: 0 <= i < |left| && p[i].None? && 0 <= j < |right| && !Taken(p, j) ==>
      !equal(left[i], right[j]) && !correspond(left[i], right[j])
  {
    var exact := Pass(equal, left, right, Unpaired(|left|), 0);
    var p := Pass(correspond, left, right, exact, 0);
    TakenPersists(exact, p);
    p
  }

  // ---------------------------------------------------------------------------
  // Relative order of the pairs

  /** The first left index, from `i` on, paired with right index `j`. */
  function OwnerFrom(p: Partners, j: nat, i: nat): (r: Option<nat>)
    requires i <= |p|
    ensures r.Some? ==> i <= r.value < |p| && p[r.value] == Some(j)
    ensures r.None? ==> forall k :: i <= k < |p| ==> p[k] != Some(j)
    decreases |p| - i
  {
    if i == |p| then None
    else if p[i] == Some(j) then Some(i)
    else OwnerFrom(p, j, i + 1)
  }

  /** The left partner of right index `j`, if it has one. */
  function Owner(p: Partners, j: nat): (r: Option<nat>)
    ensures r.Some? ==> r.value < |p| && p[r.value] == Some(j)
    ensures r.None? <==> !Taken(p, j)
  {
    OwnerFrom(p, j, 0)
  }

  /** The paired left indices below `n`, in left order. */
  function PairedLeft(p: Partners, n: nat): seq<nat>
    requires n <= |p|
  {
    if n == 0 then []
    else PairedLeft(p, n - 1) + (if p[n - 1].Some? then [n - 1] else [])
  }

  /** Only paired left indices below `n` are listed. */
  lemma {:induction false} PairedLeftArePaired(p: Partners, n: nat)
    requires n <= |p|
    ensures forall x :: x in PairedLeft(p, n) ==> x < n && p[x].Some?
  {
    if n > 0 {
      PairedLeftArePaired(p, n - 1);
    }
  }

  /** The left indices paired with right indices below `n`, in right order. */
  function PairedRight(p: Partners, n: nat): seq<nat> {
    if n == 0 then []
    else PairedRight(p, n - 1) + (match Owner(p, n - 1) case Some(i) => [i] case None => [])
  }

  function Replace(s: seq<nat>, a: nat, b: nat): (r: seq<nat>) {
    seq(|s|, k requires 0 <= k < |s| => if s[k] == a then b else s[k])
  }

  /**
    The pairs reported as moved. `lp` lists the pairs (by left index) in left
    order, `rp` the same pairs in right order. Walking both, whenever the next pair
    on the left is not the next one on the right, that left pair is reported as
    moved and swapped into place on the right, so the pair it displaced is not
    reported for the same swap.
   */
  function Moves(lp: seq<nat>, rp: seq<nat>): (moved: set<nat>)
    ensures forall x :: x in moved ==> x in lp
    decreases |lp|
  {
    if |lp| == 0 || |rp| == 0 then {}
    else if lp[0] == rp[0] then Moves(lp[1..], rp[1..])
    else {lp[0]} + Moves(lp[1..], Replace(rp[1..], lp[0], rp[0]))
  }

  /** Pairs that keep their relative order are never reported as moved. */
  lemma {:induction false} MovesOfSameOrder(s: seq<nat>)
    ensures Moves(s, s) == {}
    decreases |s|
  {
    if |s| > 0 {
      MovesOfSameOrder(s[1..]);
    }
  }

  /** When nothing is reported as moved, the two orders agree as far as both go. */
  lemma {:induction false} NoMovesMeansSameOrder(lp: seq<nat>, rp: seq<nat>)
    requires Moves(lp, rp) == {}
    ensures forall t :: 0 <= t < |lp| && t < |rp| ==> lp[t] == rp[t]
    decreases |lp|
  {
    if |lp| > 0 && |rp| > 0 {
      assert lp[0] == rp[0];
      NoMovesMeansSameOrder(lp[1..], rp[1..]);
      forall t | 0 < t < |lp| && t < |rp|
        ensures lp[t] == rp[t]
      {
        assert lp[1..][t - 1] == rp[1..][t - 1];
      }
    }
  }

  /** For orders of the same pairs: nothing moved exactly when the orders are the same. */
  lemma {:induction false} MovesEmptyIff(lp: seq<nat>, rp: seq<nat>)
    requires |lp| == |rp|
    ensures Moves(lp, rp) == {} <==> lp == rp
  {
    if Moves(lp, rp) == {} {
      NoMovesMeansSameOrder(lp, rp);
    }
    if lp == rp {
      MovesOfSameOrder(lp);
    }
  }

  ghost predicate Distinct(s: seq<nat>) {
    forall a, b :: 0 <= a < b < |s| ==> s[a] != s[b]
  }

  /** Exchanging two pairs reports exactly one move: the pair that comes first on the left. */
  lemma {:induction false} SwapMovesEarlier(s: seq<nat>, a: nat, b: nat)
    requires Distinct(s) && a < b < |s|
    ensures Moves(s, s[a := s[b]][b := s[a]]) == {s[a]}
    decreases a
  {
    var rp := s[a := s[b]][b := s[a]];
    if a == 0 {
      assert s[0] != rp[0];
      assert Replace(rp[1..], s[0], rp[0]) == s[1..];
      MovesOfSameOrder(s[1..]);
    } else {
      assert s[0] == rp[0];
      assert rp[1..] == s[1..][a - 1 := s[b]][b - 1 := s[a]];
      SwapMovesEarlier(s[1..], a - 1, b - 1);
    }
  }

  // ---------------------------------------------------------------------------
  // Following a pass step by step

  /** The pairing `e` cut down to the left indices below `i`: the state of a pass that has reached `i`. */
  function State(e: Partners, i: nat): (s: Partners)
    requires i <= |e|
    ensures |s| == |e| && forall k :: 0 <= k < |e| ==> s[k] == (if k < i then e[k] else None)
  {
    e[..i] + Unpaired(|e| - i)
  }

  /** `FirstFree` picks `j` when `j` is free and accepted and no free index before it is. */
  lemma FirstFreeIs<T>(pred: (T, T) -> bool, x: T, right: seq<T>, p: Partners, j: nat)
    requires j < |right| && pred(x, right[j]) && !Taken(p, j)
    requires forall k :: 0 <= k < j ==> !pred(x, right[k]) || Taken(p, k)
    ensures FirstFree(pred, x, right, p, 0) == Some(j)
  {
  }

  /** `FirstFree` finds nothing when no free index is accepted. */
  lemma FirstFreeNone<T>(pred: (T, T) -> bool, x: T, right: seq<T>, p: Partners)
    requires forall k :: 0 <= k < |right| ==> !pred(x, right[k]) || Taken(p, k)
    ensures FirstFree(pred, x, right, p, 0) == None
  {
  }

  /** A pass whose every step picks what `e` says produces `e`. */
  lemma {:induction false} PassFollows<T>(pred: (T, T) -> bool, left: seq<T>, right: seq<T>, e: Partners, i: nat)
    requires |e| == |left| && IsMatching(e, |right|) && i <= |left|
    requires forall k :: i <= k < |left| ==> FirstFree(pred, left[k], right, State(e, k), 0) == e[k]
    ensures Pass(pred, left, right, State(e, i), i) == e
    decreases |left| - i
  {
    var s := State(e, i);
    if i == |left| {
      assert s == e;
    } else {
      assert FirstFree(pred, left[i], right, s, 0) == e[i];
      if e[i].None? {
        assert s == State(e, i + 1);
      } else {
        assert s[i := e[i]] == State(e, i + 1);
      }
      PassFollows(pred, left, right, e, i + 1);
    }
  }

  /** A pass leaves the pairing alone when no unpaired left index finds a free partner. */
  lemma {:induction false} PassKeeps<T>(pred: (T, T) -> bool, left: seq<T>, right: seq<T>, p: Partners, i: nat)
    requires |p| == |left| && i <= |left| && IsMatching(p, |right|)
    requires forall k :: i <= k < |left| && p[k].None? ==> FirstFree(pred, left[k], right, p, 0).None?
    ensures Pass(pred, left, right, p, i) == p
    decreases |left| - i
  {
    if i < |left| {
      PassKeeps(pred, left, right, p, i + 1);
    }
  }

  /** A pass steps over left indices that are already paired. */
  lemma {:induction false} PassSkipsPaired<T>(pred: (T, T) -> bool, left: seq<T>, right: seq<T>, p: Partners, i: nat, j: nat)
    requires |p| == |left| && i <= j <= |left| && IsMatching(p, |right|)
    requires forall k :: i <= k < j ==> p[k].Some?
    ensures Pass(pred, left, right, p, i) == Pass(pred, left, right, p, j)
    decreases j - i
  {
    if i < j {
      PassSkipsPaired(pred, left, right, p, i + 1, j);
    }
  }

  lemma UnpairedIsEmptyState(e: Partners)
    ensures Unpaired(|e|) == State(e, 0)
  {
  }

  // ---------------------------------------------------------------------------
  // Pairings that keep the order

  /** Pairs never cross: a later left index has a later right partner. */
  ghost predicate Monotone(p: Partners) {
    forall a, b :: 0 <= a < b < |p| && p[a].Some? && p[b].Some? ==> p[a].value < p[b].value
  }

  /** No pair crosses the cut between left index `i` and right index `j`. */
  ghost predicate Cut(p: Partners, i: nat, j: nat) {
    && i <= |p|
    && (forall k :: 0 <= k < i && p[k].Some? ==> p[k].value < j)
    && (forall k :: 0 <= k < |p| && p[k].Some? && p[k].value < j ==> k < i)
  }

  /**
    Below a cut (`i` on the left, `j` on the right) that no pair crosses, the pairs
    of a monotone pairing come in the same order on both sides.
   */
  lemma {:induction false} MonotoneCut(p: Partners, i: nat, j: nat)
    requires Monotone(p) && Cut(p, i, j)
    ensures PairedLeft(p, i) == PairedRight(p, j)
    decreases i + j
  {
    if i == 0 {
      CutAtLeftStart(p, j);
    } else if j == 0 {
      CutAtRightStart(p, i);
    } else if p[i - 1].None? {
      CutLeftUnpaired(p, i, j);
      MonotoneCut(p, i - 1, j);
    } else if Owner(p, j - 1).None? {
      CutRightUnclaimed(p, i, j);
      MonotoneCut(p, i, j - 1);
    } else {
      MonotoneCutStep(p, i, j);
      MonotoneCut(p, i - 1, j - 1);
    }
  }

  lemma CutAtLeftStart(p: Partners, j: nat)
    requires Cut(p, 0, j)
    ensures PairedLeft(p, 0) == PairedRight(p, j)
  {
    PairedRightNone(p, j);
  }

  lemma CutAtRightStart(p: Partners, i: nat)
    requires Cut(p, i, 0)
    ensures PairedLeft(p, i) == PairedRight(p, 0)
  {
    PairedLeftNone(p, i);
  }

  lemma CutLeftUnpaired(p: Partners, i: nat, j: nat)
    requires Cut(p, i, j) && 0 < i && p[i - 1].None?
    ensures Cut(p, i - 1, j) && PairedLeft(p, i) == PairedLeft(p, i - 1)
  {
    assert PairedLeft(p, i) == PairedLeft(p, i - 1) + [];
  }

  lemma CutRightUnclaimed(p: Partners, i: nat, j: nat)
    requires Cut(p, i, j) && 0 < j && Owner(p, j - 1).None?
    ensures Cut(p, i, j - 1) && PairedRight(p, j) == PairedRight(p, j - 1)
  {
    forall k | 0 <= k < i && p[k].Some?
      ensures p[k].value < j - 1
    {
      assert p[k] != Some(j - 1);
    }
    assert PairedRight(p, j) == PairedRight(p, j - 1) + [];
  }

  lemma {:induction false} PairedLeftNone(p: Partners, n: nat)
    requires n <= |p| && forall k :: 0 <= k < n ==> p[k].None?
    ensures PairedLeft(p, n) == []
  {
    if n > 0 {
      PairedLeftNone(p, n - 1);
    }
  }

  lemma {:induction false} PairedRightNone(p: Partners, n: nat)
    requires forall k :: 0 <= k < |p| && p[k].Some? ==> p[k].value >= n
    ensures PairedRight(p, n) == []
  {
    if n > 0 {
      assert Owner(p, n - 1).None?;
      PairedRightNone(p, n - 1);
    }
  }

  /** At a cut no pair crosses, the last pair on the left is also the last pair on the right. */
  lemma MonotoneCutStep(p: Partners, i: nat, j: nat)
    requires Monotone(p) && Cut(p, i, j) && 0 < i && 0 < j
    requires p[i - 1].Some? && Owner(p, j - 1).Some?
    ensures Cut(p, i - 1, j - 1)
    ensures PairedLeft(p, i) == PairedLeft(p, i - 1) + [i - 1]
    ensures PairedRight(p, j) == PairedRight(p, j - 1) + [i - 1]
  {
    var o := Owner(p, j - 1).value;
    assert o < i;
    assert o == i - 1;
    forall k | 0 <= k < i - 1 && p[k].Some?
      ensures p[k].value < j - 1
    {
      assert p[k].value < p[i - 1].value;
    }
  }

  /** A monotone pairing reports no moves. */
  lemma MonotoneHasNoMoves(p: Partners, width: nat)
    requires IsMatching(p, width) && Monotone(p)
    ensures PairedLeft(p, |p|) == PairedRight(p, width)
    ensures Moves(PairedLeft(p, |p|), PairedRight(p, width)) == {}
  {
    MonotoneCut(p, |p|, width);
    MovesOfSameOrder(PairedLeft(p, |p|));
  }

  /** When every left index below `n` is paired, they are all listed, in order. */
  lemma {:induction false} PairedLeftAll(p: Partners, n: nat)
    requires n <= |p| && forall k :: 0 <= k < n ==> p[k].Some?
    ensures |PairedLeft(p, n)| == n && forall t :: 0 <= t < n ==> PairedLeft(p, n)[t] == t
  {
    if n > 0 {
      PairedLeftAll(p, n - 1);
    }
  }

  /** When every right index below `n` is claimed, their owners are listed in right order. */
  lemma {:induction false} PairedRightAll(p: Partners, n: nat)
    requires forall j :: 0 <= j < n ==> Taken(p, j)
    ensures |PairedRight(p, n)| == n
    ensures forall t :: 0 <= t < n ==> Owner(p, t).Some? && PairedRight(p, n)[t] == Owner(p, t).value
  {
    if n > 0 {
      PairedRightAll(p, n - 1);
    }
  }

  // ---------------------------------------------------------------------------
  // The identity pairing

  function Identity(n: nat): Partners {
    seq(n, i => Some(i))
  }

  lemma IdentityIsMonotoneMatching(n: nat)
    ensures IsMatching(Identity(n), n) && Monotone(Identity(n))
    ensures forall j :: 0 <= j < n ==> Taken(Identity(n), j)
  {
    var e := Identity(n);
    forall j | 0 <= j < n
      ensures Taken(e, j)
    {
      assert e[j] == Some(j);
    }
  }

  /** A pass over arrays whose elements `pred` accepts index by index pairs every index with itself. */
  lemma PassOfPairwise<T>(pred: (T, T) -> bool, left: seq<T>, right: seq<T>)
    requires |left| == |right|
    requires forall i :: 0 <= i < |left| ==> pred(left[i], right[i])
    ensures Pass(pred, left, right, Unpaired(|left|), 0) == Identity(|left|)
  {
    var e := Identity(|left|);
    IdentityIsMonotoneMatching(|left|);
    forall k | 0 <= k < |left|
      ensures FirstFree(pred, left[k], right, State(e, k), 0) == e[k]
    {
      PairwiseStep(pred, left, right, k);
    }
    PassFollows(pred, left, right, e, 0);
    UnpairedIsEmptyState(e);
  }

  lemma PairwiseStep<T>(pred: (T, T) -> bool, left: seq<T>, right: seq<T>, k: nat)
    requires |left| == |right| && k < |left|
    requires pred(left[k], right[k])
    ensures FirstFree(pred, left[k], right, State(Identity(|left|), k), 0) == Some(k)
  {
    var s := State(Identity(|left|), k);
    forall t | 0 <= t < k
      ensures Taken(s, t)
    {
      assert s[t] == Some(t);
    }
    FirstFreeIs(pred, left[k], right, s, k);
  }

  /**
    A pairing that pairs every left index, claims every right index and reports no
    moves pairs each index with itself, so both arrays have the same length.
   */
  lemma OrderedBijectionIsIdentity(p: Partners, width: nat)
    requires IsMatching(p, width)
    requires forall k :: 0 <= k < |p| ==> p[k].Some?
    requires forall j :: 0 <= j < width ==> Taken(p, j)
    requires Moves(PairedLeft(p, |p|), PairedRight(p, width)) == {}
    ensures |p| == width && p == Identity(width)
  {
    var lp := PairedLeft(p, |p|);
    var rp := PairedRight(p, width);
    PairedLeftAll(p, |p|);
    PairedRightAll(p, width);
    NoMovesMeansSameOrder(lp, rp);
    forall t | 0 <= t < |p| && t < width
      ensures p[t] == Some(t)
    {
      assert lp[t] == rp[t];
    }
    if |p| > 0 {
      var v := p[|p| - 1].value;
      if v < |p| {
        assert p[v] == Some(v);
      }
      assert |p| - 1 < width;
    }
    if width > 0 {
      var o := Owner(p, width - 1).value;
      if o < width {
        assert p[o] == Some(o);
      }
      assert width - 1 < |p|;
    }
  }

  /** A pass over a pairing with a single unpaired left index `k` only decides `k`. */
  lemma {:induction false} PassSingleGap<T>(pred: (T, T) -> bool, left: seq<T>, right: seq<T>, p: Partners, k: nat, i: nat)
    requires |p| == |left| && i <= |left| && k < |left| && IsMatching(p, |right|)
    requires forall t :: 0 <= t < |left| && t != k ==> p[t].Some?
    requires p[k].None?
    ensures Pass(pred, left, right, p, i) == if i <= k then p[k := FirstFree(pred, left[k], right, p, 0)] else p
    decreases |left| - i
  {
    if i < |left| {
      if i == k {
        var q := p[k := FirstFree(pred, left[k], right, p, 0)];
        PassKeeps(pred, left, right, q, k + 1);
      } else {
        PassSingleGap(pred, left, right, p, k, i + 1);
      }
    }
  }

  /** When the exact pass follows `e` step by step, the pairing is what the loose pass makes of `e`. */
  lemma MatchFollows<T>(equal: (T, T) -> bool, correspond: (T, T) -> bool, left: seq<T>, right: seq<T>, e: Partners)
    requires |e| == |left| && IsMatching(e, |right|)
    requires forall k :: 0 <= k < |left| ==> FirstFree(equal, left[k], right, State(e, k), 0) == e[k]
    ensures Match(equal, correspond, left, right) == Pass(correspond, left, right, e, 0)
  {
    PassFollows(equal, left, right, e, 0);
    UnpairedIsEmptyState(e);
  }
}
