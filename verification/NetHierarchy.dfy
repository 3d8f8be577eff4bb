/**
 Nesting in a sorted networks table. The nesting depth of a row is the number
 of rows before it that cover it; sorting makes descendants contiguous, so
 the early-break scan of the loader computes exactly these depths, and the
 depths alone give the forest of prefixes.
 */
module NetHierarchy {
  import opened NetPrefix
  import opened NetForest

  const LEVEL_LIMIT: nat := 256 // levels are kept in 8 bits
  const PREV_SIZE: nat := 128 // entries of the loader's array of open parents

  ghost predicate SortedTable(s: seq<Row>) {
    ValidRows(s) && SortedRows(s)
  }

  /** How many of the first `m` rows cover row `x`. */
  ghost function CoverCount(s: seq<Row>, x: nat, m: nat): nat
    requires x < |s| && m <= |s|
  {
    if m == 0 then 0
    else CoverCount(s, x, m - 1) + if Covers(s[m - 1], s[x].net) then 1 else 0
  }

  ghost function Depth(s: seq<Row>, x: nat): nat
    requires x < |s|
  {
    CoverCount(s, x, x)
  }

  /** `lv` lists the nesting depths of the rows of `s`. */
  ghost predicate IsDepths(s: seq<Row>, lv: seq<nat>) {
    && |lv| == |s|
    && forall x :: 0 <= x < |lv| ==> lv[x] == Depth(s, x)
  }

  // ----- contiguity and transitivity of coverage in a sorted table

  /** What a row covers beyond another row includes that row. */
  lemma Contiguous(s: seq<Row>, i: nat, j: nat, k: nat)
    requires SortedTable(s) && i < j < k < |s| && Covers(s[i], s[k].net)
    ensures Covers(s[i], s[j].net)
  {
    assert RowLe(s[j], s[k]) && RowLe(s[i], s[j]);
    CoverConvex(s[i], s[j], s[k].net);
  }

  lemma Transitive(s: seq<Row>, i: nat, j: nat, k: nat)
    requires SortedTable(s) && i < j < k < |s|
    requires Covers(s[i], s[j].net) && Covers(s[j], s[k].net)
    ensures Covers(s[i], s[k].net)
  {
    CoverTransitive(s[i], s[j], s[k].net);
  }

  // ----- depths

  lemma {:induction false} CoverCountAtMost(s: seq<Row>, x: nat, y: nat, m: nat)
    requires x < |s| && y < |s| && m <= |s|
    requires forall i :: 0 <= i < m && Covers(s[i], s[x].net) ==> Covers(s[i], s[y].net)
    ensures CoverCount(s, x, m) <= CoverCount(s, y, m)
  {
    if m > 0 {
      CoverCountAtMost(s, x, y, m - 1);
    }
  }

  lemma {:induction false} CoverCountGrows(s: seq<Row>, x: nat, lo: nat, hi: nat)
    requires x < |s| && lo <= hi <= |s|
    ensures CoverCount(s, x, lo) <= CoverCount(s, x, hi)
    ensures (forall i :: lo <= i < hi ==> !Covers(s[i], s[x].net)) ==>
              CoverCount(s, x, lo) == CoverCount(s, x, hi)
  {
    if lo < hi {
      CoverCountGrows(s, x, lo, hi - 1);
    }
  }

  lemma CoveredIsDeeper(s: seq<Row>, j: nat, k: nat)
    requires SortedTable(s) && j < k < |s| && Covers(s[j], s[k].net)
    ensures Depth(s, k) > Depth(s, j)
  {
    forall i | 0 <= i < j && Covers(s[i], s[j].net) ensures Covers(s[i], s[k].net) {
      Transitive(s, i, j, k);
    }
    CoverCountAtMost(s, j, k, j);
    CoverCountGrows(s, k, j + 1, k);
  }

  /** The first row that `j` does not cover is no deeper than `j`. */
  lemma FirstUncovered(s: seq<Row>, j: nat, k: nat)
    requires SortedTable(s) && j < k < |s| && !Covers(s[j], s[k].net)
    requires forall m :: j < m < k ==> Covers(s[j], s[m].net)
    ensures Depth(s, k) <= Depth(s, j)
  {
    forall i | 0 <= i < j && Covers(s[i], s[k].net) ensures Covers(s[i], s[j].net) {
      Contiguous(s, i, j, k);
    }
    CoverCountAtMost(s, k, j, j);
    forall i | j <= i < k ensures !Covers(s[i], s[k].net) {
      if i > j && Covers(s[i], s[k].net) {
        Transitive(s, j, i, k);
      }
    }
    CoverCountGrows(s, k, j, k);
  }

  lemma DepthsAreLevels(s: seq<Row>, lv: seq<nat>)
    requires SortedTable(s) && IsDepths(s, lv)
    ensures LevelSeq(lv)
  {
    forall k | 0 < k < |lv| ensures lv[k] <= lv[k - 1] + 1 {
      forall i | 0 <= i < k - 1 && Covers(s[i], s[k].net) ensures Covers(s[i], s[k - 1].net) {
        Contiguous(s, i, k - 1, k);
      }
      CoverCountAtMost(s, k, k - 1, k - 1);
    }
  }

  /** Coverage is descent in the forest of the depths. */
  lemma CoverIsDescent(s: seq<Row>, lv: seq<nat>, j: nat, i: nat)
    requires SortedTable(s) && IsDepths(s, lv) && j < i < |s|
    ensures Covers(s[j], s[i].net) <==> Below(lv, j, i)
  {
    if Covers(s[j], s[i].net) {
      forall k | j < k <= i ensures lv[k] > lv[j] {
        if k < i {
          Contiguous(s, j, k, i);
        }
        CoveredIsDeeper(s, j, k);
      }
    } else {
      var k := j + 1;
      while Covers(s[j], s[k].net)
        invariant j < k <= i && forall m :: j < m < k ==> Covers(s[j], s[m].net)
        decreases i - k
      {
        k := k + 1;
      }
      FirstUncovered(s, j, k);
      assert lv[k] <= lv[j];
    }
  }

  // ----- when the loader's array of open parents suffices

  ghost predicate DistinctPrefixes(s: seq<Row>) {
    forall i, j :: 0 <= i < j < |s| ==> s[i].net != s[j].net || s[i].masknum != s[j].masknum
  }

  /** With distinct prefixes nesting is no deeper than the prefix length. */
  lemma {:induction false} DistinctDepth(s: seq<Row>, lv: seq<nat>, x: nat)
    requires SortedTable(s) && IsDepths(s, lv) && DistinctPrefixes(s) && x < |s|
    ensures lv[x] <= s[x].masknum <= ADDRESS_BITS
    decreases x
  {
    DepthsAreLevels(s, lv);
    ParentLevel(lv, x);
    var p := Parent(lv, x);
    if p >= 0 {
      ParentIsAbove(lv, x);
      CoverIsDescent(s, lv, p, x);
      CoveredLiesInside(s[p], s[x]);
      RowInterval(s[p], s[x].net);
      DistinctDepth(s, lv, p);
    }
  }

  /** The indices at which the flattening loop touches its array of open
      parents stay inside the array. */
  ghost predicate PrevInBounds(lv: seq<nat>) {
    forall i :: 0 < i < |lv| ==>
      && (lv[i] > lv[i - 1] ==> lv[i - 1] < PREV_SIZE)
      && (lv[i] < lv[i - 1] ==> lv[i] < PREV_SIZE)
  }

  /** `lv` lists the levels as the loader holds them, in 8 bits. */
  ghost predicate IsLevels(s: seq<Row>, lv: seq<nat>) {
    && |lv| == |s|
    && forall x :: 0 <= x < |lv| ==> lv[x] == Depth(s, x) % LEVEL_LIMIT
  }

  lemma ShallowLevels(s: seq<Row>, lv: seq<nat>)
    requires IsLevels(s, lv) && forall i :: 0 <= i < |s| ==> Depth(s, i) < LEVEL_LIMIT
    ensures IsDepths(s, lv)
  {
    forall x | 0 <= x < |lv| ensures lv[x] == Depth(s, x) {
      assert Depth(s, x) < LEVEL_LIMIT;
    }
  }

  /** Rows nested too deeply make the loop leave the array, before any level
      has wrapped. */
  lemma DeepOverruns(s: seq<Row>, lv: seq<nat>, i: nat)
    requires SortedTable(s) && IsLevels(s, lv) && i < |s| && Depth(s, i) > PREV_SIZE
    ensures !PrevInBounds(lv)
  {
    hide SortedTable, IsLevels;
    var depths := seq(|s|, x requires 0 <= x < |s| => Depth(s, x));
    DepthsAreLevels(s, depths);
    var first := FirstTooDeep(depths, i);
    LevelOf(s, lv, first - 1);
    LevelOf(s, lv, first);
    assert lv[first] > lv[first - 1];
  }

  lemma LevelOf(s: seq<Row>, lv: seq<nat>, x: nat)
    requires IsLevels(s, lv) && x < |s|
    ensures |lv| == |s| && lv[x] == Depth(s, x) % LEVEL_LIMIT
  {
  }

  lemma ShallowInBounds(lv: seq<nat>)
    requires LevelSeq(lv) && forall i :: 0 <= i < |lv| ==> lv[i] <= PREV_SIZE
    ensures PrevInBounds(lv)
  {
  }

  /** The array suffices exactly for nesting up to 128 levels, although the
      levels it is indexed with wrap at 256. */
  lemma PrevBoundExact(s: seq<Row>, lv: seq<nat>)
    requires SortedTable(s) && IsLevels(s, lv)
    ensures PrevInBounds(lv) <==> forall i :: 0 <= i < |s| ==> Depth(s, i) <= PREV_SIZE
  {
    hide SortedTable, IsLevels, PrevInBounds, Depth, LevelSeq;
    if i :| 0 <= i < |s| && Depth(s, i) > PREV_SIZE {
      DeepOverruns(s, lv, i);
    } else {
      ShallowLevels(s, lv);
      DepthsAreLevels(s, lv);
      ShallowInBounds(lv);
    }
  }

  lemma {:induction false} FirstTooDeep(lv: seq<nat>, i: nat) returns (first: nat)
    requires LevelSeq(lv) && i < |lv| && lv[i] > PREV_SIZE
    ensures 0 < first <= i && lv[first - 1] == PREV_SIZE && lv[first] == PREV_SIZE + 1
  {
    if lv[i - 1] <= PREV_SIZE {
      first := i;
    } else {
      first := FirstTooDeep(lv, i - 1);
    }
  }

  // ----- the loader's passes over the sorted table

  /** What the levels are once the first `index` rows have been scanned. */
  ghost function LevelAfter(s: seq<Row>, x: nat, index: nat): nat
    requires x < |s| && index <= |s|
  {
    CoverCount(s, x, if x < index then x else index) % LEVEL_LIMIT
  }

  lemma WrapsOnce(n: nat)
    ensures (n + 1) % LEVEL_LIMIT == (n % LEVEL_LIMIT + 1) % LEVEL_LIMIT
  {
  }

  lemma LevelStep(s: seq<Row>, x: nat, index: nat)
    requires x < |s| && index < |s|
    ensures x <= index ==> LevelAfter(s, x, index + 1) == LevelAfter(s, x, index)
    ensures x > index && Covers(s[index], s[x].net) ==>
              LevelAfter(s, x, index + 1) == (LevelAfter(s, x, index) + 1) % LEVEL_LIMIT
    ensures x > index && !Covers(s[index], s[x].net) ==> LevelAfter(s, x, index + 1) == LevelAfter(s, x, index)
  {
    hide Covers;
    if x > index {
      WrapsOnce(CoverCount(s, x, index));
      assert CoverCount(s, x, index + 1) == CoverCount(s, x, index) + if Covers(s[index], s[x].net) then 1 else 0;
    }
  }

  /** Pass 4a: every row raises the level of the rows that follow it and that
      it covers, up to the first it does not cover. The counter of children
      this pass also keeps is overwritten by pass 4c. */
  method BuildLevels(table: array<Row>) returns (level: array<nat>)
    requires SortedTable(table[..])
    ensures fresh(level) && level.Length == table.Length
    ensures IsLevels(table[..], level[..])
  {
    ghost var s := table[..];
    level := new nat[table.Length](_ => 0);
    for index := 0 to table.Length
      invariant table[..] == s
      invariant forall x :: 0 <= x < table.Length ==> level[x] == LevelAfter(s, x, index)
    {
      RaiseCovered(table, level, index);
    }
  }

  method RaiseCovered(table: array<Row>, level: array<nat>, index: nat)
    requires SortedTable(table[..]) && level.Length == table.Length && index < table.Length
    requires forall x :: 0 <= x < table.Length ==> level[x] == LevelAfter(table[..], x, index)
    modifies level
    ensures forall x :: 0 <= x < table.Length ==> level[x] == LevelAfter(table[..], x, index + 1)
  {
    ghost var s := table[..];
    var x := index + 1;
    forall y | 0 <= y <= index ensures LevelAfter(s, y, index + 1) == LevelAfter(s, y, index) {
      LevelStep(s, y, index);
    }
    while x < table.Length && BitAnd(table[x].net, table[index].mask) == table[index].net
      invariant index < x <= table.Length && table[..] == s
      invariant forall y :: 0 <= y < x ==> level[y] == LevelAfter(s, y, index + 1)
      invariant forall y :: x <= y < table.Length ==> level[y] == LevelAfter(s, y, index)
    {
      LevelStep(s, x, index);
      level[x] := (level[x] + 1) % LEVEL_LIMIT;
      x := x + 1;
    }
    forall y | x <= y < table.Length ensures LevelAfter(s, y, index + 1) == LevelAfter(s, y, index) {
      if Covers(s[index], s[y].net) && y > x {
        Contiguous(s, index, x, y);
      }
      LevelStep(s, y, index);
    }
  }

  /** Pass 4b: the rows at level zero are the roots. */
  method CountRoots(level: array<nat>) returns (roots: nat)
    requires LevelSeq(level[..])
    ensures roots == BlockSize(level[..], -1)
  {
    roots := 0;
    ghost var lv := level[..];
    for index := 0 to level.Length
      invariant roots == ChildCount(lv, -1, index)
    {
      ParentLevel(lv, index);
      if level[index] == 0 {
        roots := roots + 1;
      }
    }
  }

  /** Pass 4c: direct children of every row. */
  method CountChildren(level: array<nat>) returns (childs: array<nat>)
    requires LevelSeq(level[..])
    ensures fresh(childs) && childs.Length == level.Length
    ensures forall p :: 0 <= p < level.Length ==> childs[p] == BlockSize(level[..], p)
  {
    childs := new nat[level.Length](_ => 0);
    for index := 0 to level.Length
      invariant level[..] == old(level[..])
      invariant forall p :: 0 <= p < index ==> childs[p] == BlockSize(level[..], p)
    {
      var effChilds := CountDirect(level, index);
      childs[index] := effChilds;
    }
  }

  method CountDirect(level: array<nat>, index: nat) returns (effChilds: nat)
    requires LevelSeq(level[..]) && index < level.Length
    ensures effChilds == BlockSize(level[..], index)
  {
    ghost var lv := level[..];
    effChilds := 0;
    var x := index + 1;
    ChildrenComeAfter(lv, index);
    while x < level.Length && level[index] != level[x]
      invariant index < x <= level.Length && effChilds == ChildCount(lv, index, x)
      invariant forall y :: index < y < x ==> lv[y] != lv[index]
    {
      ChildTest(lv, index, x);
      if level[index] + 1 == level[x] {
        effChilds := effChilds + 1;
      }
      x := x + 1;
    }
    NoChildAfter(lv, index, x);
  }
}
