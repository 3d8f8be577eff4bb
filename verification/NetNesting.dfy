/**
 How deep the rows of the file may nest before the loader's fixed array of
 open parents is too small, told from the rows alone, in any order.
 */
module NetNesting {
  import opened NetPrefix
  import opened NetSort
  import opened NetHierarchy

  /** A row that covers `r` and is no more specific; `r` itself is one. */
  predicate AboveOrSame(q: Row, r: Row) {
    Covers(q, r.net) && q.masknum <= r.masknum
  }

  /** How many rows are above `r`, rows equal to `r` included. */
  function Nesting(rows: seq<Row>, r: Row): nat {
    if rows == [] then 0
    else Nesting(rows[..|rows| - 1], r) + if AboveOrSame(rows[|rows| - 1], r) then 1 else 0
  }

  ghost predicate NestingBounded(rows: seq<Row>, bound: nat) {
    forall r :: r in rows ==> Nesting(rows, r) <= bound
  }

  lemma {:induction false} NestingAppend(s: seq<Row>, t: seq<Row>, r: Row)
    ensures Nesting(s + t, r) == Nesting(s, r) + Nesting(t, r)
  {
    if t == [] {
      assert s + t == s;
    } else {
      assert (s + t)[..|s + t| - 1] == s + t[..|t| - 1];
      NestingAppend(s, t[..|t| - 1], r);
    }
  }

  /** Leaving out one row. */
  lemma WithoutRow(t: seq<Row>, k: nat, r: Row)
    requires k < |t|
    ensures multiset(t[..k] + t[k + 1..]) == multiset(t) - multiset{t[k]}
    ensures Nesting(t, r) == Nesting(t[..k] + t[k + 1..], r) + if AboveOrSame(t[k], r) then 1 else 0
  {
    hide AboveOrSame;
    assert t == t[..k] + [t[k]] + t[k + 1..];
    NestingAppend(t[..k], [t[k]], r);
    NestingAppend(t[..k] + [t[k]], t[k + 1..], r);
    NestingAppend(t[..k], t[k + 1..], r);
    assert [t[k]][..0] == [];
  }

  /** Counting does not depend on the order. */
  lemma {:induction false} NestingPermuted(s: seq<Row>, t: seq<Row>, r: Row)
    requires multiset(s) == multiset(t)
    ensures Nesting(s, r) == Nesting(t, r)
    decreases |s|
  {
    hide AboveOrSame, Nesting;
    if s == [] {
      assert |multiset(t)| == 0;
    } else {
      var n := |s| - 1;
      assert s[n] in multiset(t);
      var k :| 0 <= k < |t| && t[k] == s[n];
      WithoutRow(s, n, r);
      WithoutRow(t, k, r);
      assert s[..n] + s[n + 1..] == s[..n];
      NestingPermuted(s[..n], t[..k] + t[k + 1..], r);
    }
  }

  /** In a sorted table the rows covering row `i` come before it or are not
      above it, so up to `i` coverage and nesting agree. */
  lemma {:induction false} NestingIsCoverCount(s: seq<Row>, i: nat, m: nat)
    requires SortedTable(s) && m <= i < |s|
    ensures Nesting(s[..m], s[i]) == CoverCount(s, i, m)
  {
    if m > 0 {
      NestingIsCoverCount(s, i, m - 1);
      assert s[..m][..m - 1] == s[..m - 1];
      if Covers(s[m - 1], s[i].net) {
        CoveredLiesInside(s[m - 1], s[i]);
      }
    }
  }

  lemma {:induction false} NestingGrows(s: seq<Row>, r: Row, lo: nat, hi: nat)
    requires lo <= hi <= |s|
    ensures Nesting(s[..lo], r) <= Nesting(s[..hi], r)
    ensures (forall k :: lo <= k < hi ==> !AboveOrSame(s[k], r)) ==> Nesting(s[..lo], r) == Nesting(s[..hi], r)
  {
    if lo < hi {
      NestingGrows(s, r, lo, hi - 1);
      assert s[..hi][..hi - 1] == s[..hi - 1];
    }
  }

  lemma SelfNesting(s: seq<Row>, i: nat)
    requires SortedTable(s) && i < |s|
    ensures Nesting(s[..i + 1], s[i]) == Depth(s, i) + 1
  {
    assert s[..i + 1][..i] == s[..i];
    NestingIsCoverCount(s, i, i);
  }

  /** After the last row with the key of row `i` nothing is above it. */
  lemma NothingAboveAfter(s: seq<Row>, i: nat, k: nat)
    requires SortedTable(s) && i < k < |s|
    requires s[k].net != s[i].net || s[k].mask != s[i].mask
    ensures !AboveOrSame(s[k], s[i])
  {
    assert RowLe(s[i], s[k]);
    RowInterval(s[k], s[i].net);
    MaskOrder(s[i], s[k]);
    MaskOrder(s[k], s[i]);
  }

  lemma {:induction false} LastOfKey(s: seq<Row>, i: nat, m: nat) returns (last: nat)
    requires i < m <= |s|
    ensures i <= last < m && s[last].net == s[i].net && s[last].mask == s[i].mask
    ensures forall k :: last < k < m ==> s[k].net != s[i].net || s[k].mask != s[i].mask
    decreases m
  {
    if m == i + 1 || (s[m - 1].net == s[i].net && s[m - 1].mask == s[i].mask) {
      last := m - 1;
    } else {
      last := LastOfKey(s, i, m - 1);
    }
  }

  lemma NestingOfKey(s: seq<Row>, r: Row, q: Row)
    requires ValidRow(r) && ValidRow(q) && r.net == q.net && r.mask == q.mask
    ensures Nesting(s, r) == Nesting(s, q)
  {
    MaskOrder(r, q);
    MaskOrder(q, r);
    SameAbove(s, r, q);
  }

  lemma {:induction false} SameAbove(s: seq<Row>, r: Row, q: Row)
    requires r.net == q.net && r.masknum == q.masknum
    ensures Nesting(s, r) == Nesting(s, q)
  {
    if s != [] {
      SameAbove(s[..|s| - 1], r, q);
    }
  }

  /** The deepest nesting of the file is one more than the deepest level. */
  lemma NestingAndDepth(rows: seq<Row>, s: seq<Row>, bound: nat)
    requires SortedTable(s) && multiset(rows) == multiset(s)
    ensures NestingBounded(rows, bound + 1) <==> forall i :: 0 <= i < |s| ==> Depth(s, i) <= bound
  {
    if NestingBounded(rows, bound + 1) {
      forall i | 0 <= i < |s| ensures Depth(s, i) <= bound {
        SameMembers(rows, s);
        NestingPermuted(rows, s, s[i]);
        SelfNesting(s, i);
        NestingGrows(s, s[i], i + 1, |s|);
        assert s[..|s|] == s;
      }
    }
    if forall i :: 0 <= i < |s| ==> Depth(s, i) <= bound {
      forall r | r in rows ensures Nesting(rows, r) <= bound + 1 {
        NestingOfRow(rows, s, r, bound);
      }
    }
  }

  lemma NestingOfRow(rows: seq<Row>, s: seq<Row>, r: Row, bound: nat)
    requires SortedTable(s) && multiset(rows) == multiset(s) && r in rows
    requires forall i :: 0 <= i < |s| ==> Depth(s, i) <= bound
    ensures Nesting(rows, r) <= bound + 1
  {
    NestingPermuted(rows, s, r);
    SameMembers(rows, s);
    var i :| 0 <= i < |s| && s[i] == r;
    var last := LastOfKey(s, i, |s|);
    NestingOfKey(s, r, s[last]);
    NestingOfLast(s, last);
  }

  lemma NestingOfLast(s: seq<Row>, last: nat)
    requires SortedTable(s) && last < |s|
    requires forall k :: last < k < |s| ==> s[k].net != s[last].net || s[k].mask != s[last].mask
    ensures Nesting(s, s[last]) == Depth(s, last) + 1
  {
    SelfNesting(s, last);
    forall k | last < k < |s| ensures !AboveOrSame(s[k], s[last]) {
      NothingAboveAfter(s, last, k);
    }
    NestingGrows(s, s[last], last + 1, |s|);
    assert s[..|s|] == s;
  }

  /** Flattening, with the levels pass 4a leaves, stays inside its array of
      128 open parents exactly when no row of the file has more than 129 rows
      above it, itself included. */
  lemma LoadableExactly(rows: seq<Row>, s: seq<Row>, lv: seq<nat>)
    requires SortedTable(s) && IsLevels(s, lv) && multiset(rows) == multiset(s)
    ensures NestingBounded(rows, PREV_SIZE + 1) <==> PrevInBounds(lv)
  {
    PrevBoundExact(s, lv);
    NestingAndDepth(rows, s, PREV_SIZE);
  }

  /** Without repeated prefixes the array always suffices. */
  lemma DistinctAlwaysLoads(s: seq<Row>, lv: seq<nat>)
    requires SortedTable(s) && IsLevels(s, lv) && DistinctPrefixes(s)
    ensures PrevInBounds(lv)
  {
    var depths := seq(|s|, x requires 0 <= x < |s| => Depth(s, x));
    forall i | 0 <= i < |s| ensures Depth(s, i) <= PREV_SIZE {
      DistinctDepth(s, depths, i);
    }
    PrevBoundExact(s, lv);
  }

  lemma {:induction false} NestingOfCopies(r: Row, n: nat)
    requires ValidRow(r)
    ensures Nesting(seq(n, _ => r), r) == n
  {
    if n > 0 {
      assert seq(n, _ => r)[..n - 1] == seq(n - 1, _ => r);
      NestingOfCopies(r, n - 1);
    }
  }

  /** A file that repeats one line 130 times makes the loader leave its array;
      129 times do not. */
  lemma RepeatedRowOverruns(r: Row, n: nat, lv: seq<nat>)
    requires ValidRow(r) && IsLevels(seq(n, _ => r), lv)
    ensures NestingBounded(seq(n, _ => r), PREV_SIZE + 1) <==> n <= PREV_SIZE + 1
    ensures PrevInBounds(lv) <==> n < 130
  {
    var rows := seq(n, _ => r);
    NestingOfCopies(r, n);
    if n > 0 {
      assert rows[0] == r && r in rows;
    }
    assert forall q :: q in rows ==> q == r;
    LoadableExactly(rows, rows, lv);
  }
}
