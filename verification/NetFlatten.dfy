/**
 Flattening: the sorted rows are copied into one array that holds the block
 of root rows followed by one contiguous block of children per parent, and
 every parent is told where the block of its children is.
 */
module NetFlatten {
  import opened NetPrefix
  import opened NetForest
  import opened NetHierarchy

  /** Where the children of an entry are: the pointer into the table and the
      number of entries; no pointer for an entry without children. */
  datatype Children = NoChildren | Children(start: nat, num: nat)

  datatype TableEntry = TableEntry(row: Row, childs: Children)

  const ZERO_ROW := Row(0, 0, 0, 0, 0, 0)

  ghost function ChildBlock(lv: seq<nat>, i: nat): Children {
    if BlockSize(lv, i) == 0 then NoChildren else Children(BlockStart(lv, i), BlockSize(lv, i))
  }

  ghost predicate Holds(t: seq<TableEntry>, slot: nat, e: TableEntry) {
    slot < |t| && t[slot] == e
  }

  /** `t` is the flattened form of the sorted rows `s` with levels `lv`. */
  ghost predicate FlatTable(t: seq<TableEntry>, s: seq<Row>, lv: seq<nat>) {
    && |t| == |s| == |lv|
    && forall i :: 0 <= i < |s| ==> Holds(t, Slot(lv, i), TableEntry(s[i], ChildBlock(lv, i)))
  }

  ghost function RowsIn(t: seq<TableEntry>): seq<Row> {
    seq(|t|, i requires 0 <= i < |t| => t[i].row)
  }

  /** Flattening loses no row and repeats none. */
  lemma FlatIsPermutation(t: seq<TableEntry>, s: seq<Row>, lv: seq<nat>)
    requires FlatTable(t, s, lv)
    ensures multiset(RowsIn(t)) == multiset(s)
  {
    var slots := seq(|s|, i requires 0 <= i < |s| => Slot(lv, i));
    forall i | 0 <= i < |s| ensures slots[i] < |t| && RowsIn(t)[slots[i]] == s[i] {
      assert Holds(t, Slot(lv, i), TableEntry(s[i], ChildBlock(lv, i)));
    }
    forall i, j | 0 <= i < j < |s| ensures slots[i] != slots[j] {
      SlotInjective(lv, i, j);
    }
    Rearranged(s, RowsIn(t), slots);
  }

  /** Elements sent to pairwise different places, filling them all. */
  lemma {:induction false} Rearranged(s: seq<Row>, t: seq<Row>, to: seq<nat>)
    requires |s| == |t| == |to|
    requires forall i :: 0 <= i < |s| ==> to[i] < |t| && t[to[i]] == s[i]
    requires forall i, j :: 0 <= i < j < |to| ==> to[i] != to[j]
    ensures multiset(s) == multiset(t)
    decreases |s|
  {
    if s != [] {
      var n := |s| - 1;
      var k := to[n];
      var rest := t[..k] + t[k + 1..];
      var to' := seq(n, i requires 0 <= i < n => if to[i] < k then to[i] else to[i] - 1);
      Rearranged(s[..n], rest, to');
      assert t == t[..k] + [t[k]] + t[k + 1..];
      assert s == s[..n] + [s[n]];
      assert multiset(t) == multiset(rest) + multiset{t[k]};
    }
  }

  /** What the first `n` rows have written: the last of them does not know
      its children yet. */
  ghost predicate Placed(t: seq<TableEntry>, s: seq<Row>, lv: seq<nat>, n: nat)
    requires n <= |s| == |lv|
  {
    forall i :: 0 <= i < n ==>
      Holds(t, Slot(lv, i), TableEntry(s[i], if i == n - 1 then NoChildren else ChildBlock(lv, i)))
  }

  /** Every row above `last` has its slot noted under its level. */
  ghost predicate OpenParents(prev: seq<nat>, lv: seq<nat>, last: nat)
    requires last < |lv|
  {
    forall j :: 0 <= j < last && Below(lv, j, last) ==> lv[j] < |prev| && prev[lv[j]] == Slot(lv, j)
  }

  lemma FirstSlot(lv: seq<nat>)
    requires |lv| > 0
    ensures Slot(lv, 0) == 0
    ensures BlockStart(lv, 0) == BlockSize(lv, -1)
  {
    NothingBeforeRoots(lv, |lv|);
    BlocksAdjacent(lv, -1);
  }

  /** The row one level deeper is the first child of its predecessor. */
  lemma FirstChildSlot(lv: seq<nat>, i: nat)
    requires LevelSeq(lv) && 0 < i < |lv| && lv[i] > lv[i - 1]
    ensures Slot(lv, i) == BlockStart(lv, i - 1)
    ensures ChildBlock(lv, i - 1) == Children(BlockStart(lv, i - 1), BlockSize(lv, i - 1))
  {
    ParentIs(lv, i - 1, i);
    ChildrenComeAfter(lv, i - 1);
    SlotInBlock(lv, i);
  }

  lemma SameLevelSlot(lv: seq<nat>, i: nat)
    requires LevelSeq(lv) && 0 < i < |lv| && lv[i] == lv[i - 1]
    ensures Slot(lv, i) == Slot(lv, i - 1) + 1
  {
    NextSibling(lv, i - 1, i);
  }

  /** Going back to an open level finds the row's preceding sibling. */
  lemma BackSlot(lv: seq<nat>, i: nat, prev: seq<nat>)
    requires LevelSeq(lv) && 0 < i < |lv| && lv[i] < lv[i - 1]
    requires OpenParents(prev, lv, i - 1)
    ensures lv[i] < |prev| && Slot(lv, i) == prev[lv[i]] + 1
  {
    var q := LastBelow(lv, i - 1, lv[i] + 1);
    assert lv[0] == 0;
    assert lv[q + 1] <= lv[q] + 1;
    assert Below(lv, q, i - 1);
    NextSibling(lv, q, i);
  }

  /** Writing the next row disturbs no slot already written. */
  lemma PlaceNext(t: seq<TableEntry>, t': seq<TableEntry>, s: seq<Row>, lv: seq<nat>, n: nat)
    requires n < |s| == |lv| == |t| == |t'|
    requires Placed(t, s, lv, n)
    requires n > 0 ==> Holds(t', Slot(lv, n - 1), TableEntry(s[n - 1], ChildBlock(lv, n - 1)))
    requires Holds(t', Slot(lv, n), TableEntry(s[n], NoChildren))
    requires forall k :: 0 <= k < |t| && k != Slot(lv, n) && (n == 0 || k != Slot(lv, n - 1)) ==> t'[k] == t[k]
    ensures Placed(t', s, lv, n + 1)
  {
    forall i | 0 <= i < n - 1
      ensures Holds(t', Slot(lv, i), TableEntry(s[i], ChildBlock(lv, i)))
    {
      SlotInjective(lv, i, n);
      SlotInjective(lv, i, n - 1);
      assert Holds(t, Slot(lv, i), TableEntry(s[i], ChildBlock(lv, i)));
    }
  }

  lemma OpenAfter(prev: seq<nat>, prev': seq<nat>, lv: seq<nat>, i: nat)
    requires 0 < i < |lv| && OpenParents(prev, lv, i - 1) && |prev| == |prev'|
    requires if lv[i] > lv[i - 1]
             then lv[i - 1] < |prev| && prev' == prev[lv[i - 1] := Slot(lv, i - 1)]
             else prev' == prev
    ensures OpenParents(prev', lv, i)
  {
    forall j | 0 <= j < i && Below(lv, j, i) ensures lv[j] < |prev'| && prev'[lv[j]] == Slot(lv, j) {
      if j < i - 1 {
        assert Below(lv, j, i - 1);
      }
    }
  }

  /** What the loop knows after `n` rows: the slot of the last row, the start
      of the next free block, the open parents and the slots written. */
  ghost predicate Progress(t: seq<TableEntry>, s: seq<Row>, lv: seq<nat>, prev: seq<nat>,
                           n: nat, current: nat, next: nat)
  {
    && 0 < n <= |s| == |lv| == |t|
    && Placed(t, s, lv, n)
    && OpenParents(prev, lv, n - 1)
    && current == Slot(lv, n - 1)
    && next == BlockStart(lv, n - 1)
  }

  /** The three ways the loop finds the slot of the next row. */
  lemma NextSlot(t: seq<TableEntry>, s: seq<Row>, lv: seq<nat>, prev: seq<nat>, n: nat, current: nat, next: nat)
    requires LevelSeq(lv) && Progress(t, s, lv, prev, n, current, next) && n < |lv|
    ensures Slot(lv, n) < |t| && current < |t| && t[current] == TableEntry(s[n - 1], NoChildren)
    ensures Slot(lv, n) != current
    ensures lv[n] == lv[n - 1] ==> Slot(lv, n) == current + 1
    ensures lv[n] > lv[n - 1] ==>
              Slot(lv, n) == next && ChildBlock(lv, n - 1) == Children(next, BlockSize(lv, n - 1))
    ensures lv[n] < lv[n - 1] ==> lv[n] < |prev| && Slot(lv, n) == prev[lv[n]] + 1
    ensures lv[n] <= lv[n - 1] ==> BlockSize(lv, n - 1) == 0
    ensures BlockStart(lv, n) == next + BlockSize(lv, n - 1)
  {
    BlocksAdjacent(lv, n - 1);
    SlotInBlock(lv, n);
    SlotInjective(lv, n, n - 1);
    assert Holds(t, Slot(lv, n - 1), TableEntry(s[n - 1], NoChildren));
    if lv[n] == lv[n - 1] {
      SameLevelSlot(lv, n);
      Childless(lv, n - 1);
    } else if lv[n] > lv[n - 1] {
      FirstChildSlot(lv, n);
    } else {
      BackSlot(lv, n, prev);
      Childless(lv, n - 1);
    }
  }

  lemma ProgressStep(t: seq<TableEntry>, t': seq<TableEntry>, s: seq<Row>, lv: seq<nat>,
                     prev: seq<nat>, prev': seq<nat>, n: nat, current: nat, next: nat)
    requires LevelSeq(lv) && Progress(t, s, lv, prev, n, current, next) && n < |lv|
    requires current < |t| && Slot(lv, n) < |t|
    requires t' ==
             t[current := TableEntry(s[n - 1], ChildBlock(lv, n - 1))][Slot(lv, n) := TableEntry(s[n], NoChildren)]
    requires if lv[n] > lv[n - 1]
             then lv[n - 1] < |prev| && prev' == prev[lv[n - 1] := current]
             else prev' == prev
    ensures Progress(t', s, lv, prev', n + 1, Slot(lv, n), next + BlockSize(lv, n - 1))
  {
    NextSlot(t, s, lv, prev, n, current, next);
    PlaceNext(t, t', s, lv, n);
    OpenAfter(prev, prev', lv, n);
  }

  /** Step 5a of the loader. The variables `current` and `next` keep their
      values from one row to the next. */
  method Flatten(tmp: array<Row>, level: array<nat>, childs: array<nat>, roots: nat)
    returns (table: array<TableEntry>)
    requires tmp.Length == level.Length == childs.Length > 0
    requires LevelSeq(level[..]) && PrevInBounds(level[..])
    requires roots == BlockSize(level[..], -1)
    requires forall p :: 0 <= p < level.Length ==> childs[p] == BlockSize(level[..], p)
    ensures fresh(table)
    ensures FlatTable(table[..], tmp[..], level[..])
  {
    table := new TableEntry[tmp.Length](_ => TableEntry(ZERO_ROW, NoChildren));
    var prev := new nat[PREV_SIZE](_ => 0);
    FirstSlot(level[..]);
    table[0] := TableEntry(tmp[0], NoChildren);
    PlaceRest(tmp, level, childs, table, prev, 0, roots);
  }

  method PlaceRest(tmp: array<Row>, level: array<nat>, childs: array<nat>, table: array<TableEntry>,
                   prev: array<nat>, first: nat, roots: nat)
    requires tmp.Length == level.Length == childs.Length == table.Length > 0
    requires prev != level && prev != childs && prev.Length == PREV_SIZE
    requires LevelSeq(level[..]) && PrevInBounds(level[..])
    requires forall p :: 0 <= p < level.Length ==> childs[p] == BlockSize(level[..], p)
    requires Progress(table[..], tmp[..], level[..], prev[..], 1, first, roots)
    modifies table, prev
    ensures FlatTable(table[..], tmp[..], level[..])
  {
    var current, next := first, roots;
    for index := 1 to tmp.Length
      invariant Progress(table[..], tmp[..], level[..], prev[..], index, current, next)
    {
      current, next := PlaceRow(tmp, level, childs, table, prev, index, current, next);
    }
    AllPlaced(table[..], tmp[..], level[..]);
  }

  lemma AllPlaced(t: seq<TableEntry>, s: seq<Row>, lv: seq<nat>)
    requires |t| == |s| == |lv| > 0 && Placed(t, s, lv, |s|)
    ensures FlatTable(t, s, lv)
  {
    Childless(lv, |lv| - 1);
  }

  method SetEntry(table: array<TableEntry>, k: nat, e: TableEntry)
    requires k < table.Length
    modifies table
    ensures table[..] == old(table[..])[k := e]
  {
    table[k] := e;
  }

  /** One iteration of step 5a. */
  method PlaceRow(tmp: array<Row>, level: array<nat>, childs: array<nat>, table: array<TableEntry>,
                  prev: array<nat>, index: nat, current: nat, next: nat)
    returns (current': nat, next': nat)
    requires tmp.Length == level.Length == childs.Length == table.Length
    requires prev != level && prev != childs && prev.Length == PREV_SIZE
    requires LevelSeq(level[..]) && PrevInBounds(level[..]) && 0 < index < tmp.Length
    requires childs[index - 1] == BlockSize(level[..], index - 1)
    requires Progress(table[..], tmp[..], level[..], prev[..], index, current, next)
    modifies table, prev
    ensures Progress(table[..], tmp[..], level[..], prev[..], index + 1, current', next')
  {
    hide Progress, LevelSeq, BlockSize, BlockStart, Slot;
    ghost var s, lv, t, p := tmp[..], level[..], table[..], prev[..];
    NextSlot(t, s, lv, p, index, current, next);
    ghost var t1 := t[current := TableEntry(s[index - 1], ChildBlock(lv, index - 1))];
    assert level[index] <= level[index - 1] ==> t1 == t;
    current', next' := current, next;
    if level[index] == level[index - 1] {
      current' := current' + 1;
    } else if level[index] > level[index - 1] {
      SetEntry(table, current', table[current'].(childs := Children(next', childs[index - 1])));
      prev[level[index - 1]] := current';
      current' := next';
      next' := next' + childs[index - 1];
    } else {
      current' := prev[level[index]];
      current' := current' + 1;
    }
    SetEntry(table, current', TableEntry(tmp[index], NoChildren));
    ProgressStep(t, table[..], s, lv, p, prev[..], index, current, next);
  }
}
