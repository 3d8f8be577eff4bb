/**
 The shape of a forest given by the nesting levels of its rows in preorder:
 parents, direct children, and the slot every row takes when the forest is
 laid out as one root block followed by one block of children per parent.
 */
module NetForest {

  /** Levels start at zero and rise by at most one per row. */
  ghost predicate LevelSeq(lv: seq<nat>) {
    && (|lv| > 0 ==> lv[0] == 0)
    && forall i :: 0 < i < |lv| ==> lv[i] <= lv[i - 1] + 1
  }

  /** The last position up to `j` with a level below `l`, or -1. */
  ghost function LastBelow(lv: seq<nat>, j: int, l: nat): (r: int)
    requires -1 <= j < |lv|
    ensures -1 <= r <= j
    ensures r >= 0 ==> lv[r] < l
    ensures forall k :: r < k <= j ==> lv[k] >= l
    decreases j
  {
    if j < 0 then -1 else if lv[j] < l then j else LastBelow(lv, j - 1, l)
  }

  /** The parent of row `i`; -1 for a root. */
  ghost function Parent(lv: seq<nat>, i: nat): (p: int)
    requires i < |lv|
    ensures -1 <= p < i
  {
    LastBelow(lv, i - 1, lv[i])
  }

  /** How many of the first `m` rows have parent `p`. */
  ghost function ChildCount(lv: seq<nat>, p: int, m: nat): nat
    requires m <= |lv|
  {
    if m == 0 then 0
    else ChildCount(lv, p, m - 1) + if Parent(lv, m - 1) == p then 1 else 0
  }

  /** How many of the first `m` rows have a parent before `p`. */
  ghost function ParentBefore(lv: seq<nat>, p: int, m: nat): nat
    requires m <= |lv|
  {
    if m == 0 then 0
    else ParentBefore(lv, p, m - 1) + if Parent(lv, m - 1) < p then 1 else 0
  }

  /** Where the block of children of `p` starts; the roots are the children
      of -1. */
  ghost function BlockStart(lv: seq<nat>, p: int): nat {
    ParentBefore(lv, p, |lv|)
  }

  /** How many children `p` has. */
  ghost function BlockSize(lv: seq<nat>, p: int): nat {
    ChildCount(lv, p, |lv|)
  }

  /** The slot of row `i` in the flattened table. */
  ghost function Slot(lv: seq<nat>, i: nat): nat
    requires i < |lv|
  {
    BlockStart(lv, Parent(lv, i)) + ChildCount(lv, Parent(lv, i), i)
  }

  // ----- parents

  lemma ParentLevel(lv: seq<nat>, i: nat)
    requires LevelSeq(lv) && i < |lv|
    ensures Parent(lv, i) == -1 <==> lv[i] == 0
    ensures Parent(lv, i) >= 0 ==> lv[Parent(lv, i)] + 1 == lv[i]
  {
    var p := Parent(lv, i);
    if p >= 0 {
      assert lv[p + 1] <= lv[p] + 1;
    } else if i > 0 {
      assert lv[0] >= lv[i];
    }
  }

  /** Only the nearest smaller level makes a parent. */
  lemma ParentIs(lv: seq<nat>, p: nat, i: nat)
    requires p < i < |lv| && lv[p] < lv[i]
    requires forall k :: p < k < i ==> lv[k] >= lv[i]
    ensures Parent(lv, i) == p
  {
  }

  /** The next row at the same level, with only deeper rows between, has the
      same parent. */
  lemma SameParent(lv: seq<nat>, j: nat, i: nat)
    requires j < i < |lv| && lv[j] == lv[i]
    requires forall k :: j < k < i ==> lv[k] > lv[i]
    ensures Parent(lv, j) == Parent(lv, i)
  {
    var p := Parent(lv, j);
    if p >= 0 {
      ParentIs(lv, p, i);
    }
  }

  /** ... and is the next child of it. */
  lemma NextSibling(lv: seq<nat>, j: nat, i: nat)
    requires j < i < |lv| && lv[j] == lv[i]
    requires forall k :: j < k < i ==> lv[k] > lv[i]
    ensures Parent(lv, j) == Parent(lv, i)
    ensures ChildCount(lv, Parent(lv, i), i) == ChildCount(lv, Parent(lv, i), j) + 1
  {
    hide LastBelow, Parent, ChildCount;
    SameParent(lv, j, i);
    var p := Parent(lv, j);
    assert p < j;
    forall k | j < k < i ensures Parent(lv, k) != p {
      ParentNotBefore(lv, j, k);
    }
    NoChildBetween(lv, p, j + 1, i);
    CountNext(lv, p, j);
  }

  lemma CountNext(lv: seq<nat>, p: int, m: nat)
    requires m < |lv|
    ensures ChildCount(lv, p, m + 1) == ChildCount(lv, p, m) + if Parent(lv, m) == p then 1 else 0
  {
  }

  lemma ParentNotBefore(lv: seq<nat>, j: nat, k: nat)
    requires j < k < |lv| && lv[j] < lv[k]
    ensures Parent(lv, k) >= j
  {
  }

  lemma {:induction false} NoChildBetween(lv: seq<nat>, p: int, lo: nat, hi: nat)
    requires lo <= hi <= |lv|
    requires forall k :: lo <= k < hi ==> Parent(lv, k) != p
    ensures ChildCount(lv, p, hi) == ChildCount(lv, p, lo)
  {
    if lo < hi {
      NoChildBetween(lv, p, lo, hi - 1);
    }
  }

  lemma ChildrenComeAfter(lv: seq<nat>, p: nat)
    requires p < |lv|
    ensures ChildCount(lv, p, p + 1) == 0
  {
    NoChildBetween(lv, p, 0, p + 1);
  }

  /** A row that is not deeper than its predecessor leaves it childless. */
  lemma Childless(lv: seq<nat>, p: nat)
    requires p < |lv|
    requires p + 1 == |lv| || lv[p + 1] <= lv[p]
    ensures BlockSize(lv, p) == 0
  {
    forall k | 0 <= k < |lv| ensures Parent(lv, k) != p {
    }
    NoChildBetween(lv, p, 0, |lv|);
  }

  // ----- blocks are disjoint and fill the table

  lemma {:induction false} ParentBeforeStep(lv: seq<nat>, p: int, m: nat)
    requires m <= |lv|
    ensures ParentBefore(lv, p + 1, m) == ParentBefore(lv, p, m) + ChildCount(lv, p, m)
  {
    if m > 0 {
      ParentBeforeStep(lv, p, m - 1);
    }
  }

  /** Blocks follow each other in the order of their parents. */
  lemma BlocksAdjacent(lv: seq<nat>, p: int)
    ensures BlockStart(lv, p + 1) == BlockStart(lv, p) + BlockSize(lv, p)
  {
    ParentBeforeStep(lv, p, |lv|);
  }

  lemma {:induction false} ParentBeforeMonotone(lv: seq<nat>, p: int, q: int, m: nat)
    requires m <= |lv| && p <= q
    ensures ParentBefore(lv, p, m) <= ParentBefore(lv, q, m) <= m
  {
    if m > 0 {
      ParentBeforeMonotone(lv, p, q, m - 1);
    }
  }

  lemma {:induction false} NothingBeforeRoots(lv: seq<nat>, m: nat)
    requires m <= |lv|
    ensures ParentBefore(lv, -1, m) == 0
  {
    if m > 0 {
      NothingBeforeRoots(lv, m - 1);
    }
  }

  lemma {:induction false} EveryRowHasABlock(lv: seq<nat>, m: nat)
    requires m <= |lv|
    ensures ParentBefore(lv, |lv|, m) == m
  {
    if m > 0 {
      EveryRowHasABlock(lv, m - 1);
    }
  }

  lemma {:induction false} ChildCountMonotone(lv: seq<nat>, p: int, lo: nat, hi: nat)
    requires lo <= hi <= |lv|
    ensures ChildCount(lv, p, lo) <= ChildCount(lv, p, hi)
  {
    if lo < hi {
      ChildCountMonotone(lv, p, lo, hi - 1);
    }
  }

  /** A row's slot lies inside its parent's block, which lies in the table. */
  lemma SlotInBlock(lv: seq<nat>, i: nat)
    requires i < |lv|
    ensures BlockStart(lv, Parent(lv, i)) <= Slot(lv, i) < BlockStart(lv, Parent(lv, i)) + BlockSize(lv, Parent(lv, i))
    ensures Slot(lv, i) < BlockStart(lv, Parent(lv, i) + 1) <= |lv|
  {
    var p := Parent(lv, i);
    ChildCountMonotone(lv, p, i + 1, |lv|);
    BlocksAdjacent(lv, p);
    ParentBeforeMonotone(lv, p + 1, |lv|, |lv|);
  }

  lemma SlotOrder(lv: seq<nat>, i: nat, j: nat)
    requires i < |lv| && j < |lv|
    requires Parent(lv, i) < Parent(lv, j) || (Parent(lv, i) == Parent(lv, j) && i < j)
    ensures Slot(lv, i) < Slot(lv, j)
  {
    if i < j && Parent(lv, i) == Parent(lv, j) {
      ChildCountMonotone(lv, Parent(lv, i), i + 1, j);
    } else {
      SlotInBlock(lv, i);
      SlotInBlock(lv, j);
      ParentBeforeMonotone(lv, Parent(lv, i) + 1, Parent(lv, j), |lv|);
    }
  }

  /** No slot is used twice. */
  lemma SlotInjective(lv: seq<nat>, i: nat, j: nat)
    requires i < |lv| && j < |lv| && i != j
    ensures Slot(lv, i) != Slot(lv, j)
  {
    var p, q := Parent(lv, i), Parent(lv, j);
    if p < q || (p == q && i < j) {
      SlotOrder(lv, i, j);
    } else {
      SlotOrder(lv, j, i);
    }
  }

  /** The `k`-th child of `p`. */
  lemma {:induction false} NthChild(lv: seq<nat>, p: int, k: nat, m: nat) returns (c: nat)
    requires m <= |lv| && k < ChildCount(lv, p, m)
    ensures c < m && Parent(lv, c) == p && ChildCount(lv, p, c) == k
  {
    if Parent(lv, m - 1) == p && ChildCount(lv, p, m - 1) == k {
      c := m - 1;
    } else {
      c := NthChild(lv, p, k, m - 1);
    }
  }

  lemma ChildOrder(lv: seq<nat>, p: int, c: nat, d: nat)
    requires c < |lv| && d < |lv| && Parent(lv, c) == p
    requires ChildCount(lv, p, c) < ChildCount(lv, p, d)
    ensures c < d
  {
    if d <= c {
      ChildCountMonotone(lv, p, d, c);
    }
  }

  /** Every slot of the table holds a row: with SlotInjective, flattening is
      a permutation. */
  lemma SlotSurjective(lv: seq<nat>, t: nat) returns (i: nat)
    requires t < |lv|
    ensures i < |lv| && Slot(lv, i) == t
  {
    NothingBeforeRoots(lv, |lv|);
    EveryRowHasABlock(lv, |lv|);
    var p := -1;
    while BlockStart(lv, p + 1) <= t
      invariant -1 <= p < |lv| && BlockStart(lv, p) <= t
      decreases |lv| - p
    {
      p := p + 1;
      BlocksAdjacent(lv, p);
    }
    BlocksAdjacent(lv, p);
    i := NthChild(lv, p, t - BlockStart(lv, p), |lv|);
  }

  // ----- the recount of direct children

  /** Levels cannot jump over `l` on the way up. */
  lemma {:induction false} PassesThrough(lv: seq<nat>, y: nat, x: nat, l: nat) returns (z: nat)
    requires LevelSeq(lv) && y < x < |lv| && lv[y] < l < lv[x]
    ensures y < z < x && lv[z] == l
  {
    if lv[x - 1] == l {
      z := x - 1;
    } else {
      z := PassesThrough(lv, y, x - 1, l);
    }
  }

  /** Until a row at the level of `p` comes, the rows one level deeper are
      exactly the children of `p`. */
  lemma ChildTest(lv: seq<nat>, p: nat, x: nat)
    requires LevelSeq(lv) && p < x < |lv|
    requires forall y :: p < y <= x ==> lv[y] != lv[p]
    ensures lv[p] + 1 == lv[x] <==> Parent(lv, x) == p
  {
    ParentLevel(lv, x);
    if lv[p] + 1 == lv[x] {
      if y :| p < y < x && lv[y] < lv[p] {
        var z := PassesThrough(lv, y, x, lv[p]);
        assert false;
      }
      ParentIs(lv, p, x);
    }
  }

  lemma NoChildAfter(lv: seq<nat>, p: nat, x: nat)
    requires p < x <= |lv|
    requires x < |lv| ==> lv[x] == lv[p]
    ensures BlockSize(lv, p) == ChildCount(lv, p, x)
  {
    forall k | x <= k < |lv| ensures Parent(lv, k) != p {
    }
    NoChildBetween(lv, p, x, |lv|);
  }

  // ----- descent

  /** `i` is below `j` in the forest. */
  ghost predicate Below(lv: seq<nat>, j: nat, i: nat)
    requires j < i < |lv|
  {
    forall k :: j < k <= i ==> lv[k] > lv[j]
  }

  lemma ParentIsAbove(lv: seq<nat>, i: nat)
    requires LevelSeq(lv) && i < |lv| && Parent(lv, i) >= 0
    ensures Below(lv, Parent(lv, i), i)
  {
    ParentLevel(lv, i);
  }

  /** A row below `p` is a child of `p` or below one (`p` = -1: any row). */
  lemma {:induction false} ChildOnThePath(lv: seq<nat>, p: int, i: nat) returns (c: nat)
    requires LevelSeq(lv) && -1 <= p < i < |lv|
    requires p >= 0 ==> Below(lv, p, i)
    ensures p < c <= i && Parent(lv, c) == p
    ensures c < i ==> Below(lv, c, i)
    decreases i
  {
    var q := Parent(lv, i);
    ParentLevel(lv, i);
    if q == p {
      c := i;
    } else {
      c := ChildOnThePath(lv, p, q);
    }
  }
}
