/**
 Longest-prefix match over a plain list of rows, and what it becomes on a
 sorted table and on the blocks of a flattened one.
 */
module NetMatch {
  import opened Options
  import opened NetPrefix
  import opened NetSort
  import opened NetForest
  import opened NetHierarchy
  import opened NetFlatten

  /** The rule of section 5.1 of RFC 4632 on the first `m` rows: the covering
      row with the longest prefix; of equal prefixes the last one. */
  function LongestMatchUpTo(rows: seq<Row>, addr: nat, m: nat): Option<Row>
    requires m <= |rows|
  {
    if m == 0 then None
    else
      var best := LongestMatchUpTo(rows, addr, m - 1);
      var r := rows[m - 1];
      if Covers(r, addr) && (best.None? || best.value.masknum <= r.masknum) then Some(r) else best
  }

  function LongestMatch(rows: seq<Row>, addr: nat): Option<Row> {
    LongestMatchUpTo(rows, addr, |rows|)
  }

  // ----- what longest-prefix match means

  /** `r` is the longest covering row, and the last of its key. */
  ghost predicate IsLongest(rows: seq<Row>, addr: nat, r: Row) {
    && r in rows && Covers(r, addr)
    && (forall i :: 0 <= i < |rows| && Covers(rows[i], addr) ==> rows[i].masknum <= r.masknum)
    && var same := SameKey(rows, r.net, r.mask); same != [] && same[|same| - 1] == r
  }

  lemma {:induction false} LongestMatchMeaning(rows: seq<Row>, addr: nat, m: nat)
    requires ValidRows(rows) && m <= |rows|
    ensures match LongestMatchUpTo(rows, addr, m)
            case None => forall i :: 0 <= i < m ==> !Covers(rows[i], addr)
            case Some(r) => IsLongest(rows[..m], addr, r)
  {
    if m > 0 {
      LongestMatchMeaning(rows, addr, m - 1);
      var before, last := rows[..m - 1], rows[m - 1];
      assert rows[..m] == before + [last];
      var best := LongestMatchUpTo(rows, addr, m - 1);
      var now := LongestMatchUpTo(rows, addr, m);
      if now == Some(last) {
        SameKeyAppend(before, [last], last.net, last.mask);
        if now == best || best.None? {
          assert IsLongest(rows[..m], addr, last);
        }
      } else if best.Some? {
        var r := best.value;
        SameKeyAppend(before, [last], r.net, r.mask);
        if last.net == r.net && last.mask == r.mask {
          MaskOrder(last, r);
          MaskOrder(r, last);
        }
      }
    }
  }

  /** Two rows that are both longest for one address under the same keys. */
  lemma LongestIsUnique(rows: seq<Row>, s: seq<Row>, addr: nat, r: Row, q: Row)
    requires ValidRows(rows) && ValidRows(s) && StableRearrangement(rows, s)
    requires IsLongest(rows, addr, r) && IsLongest(s, addr, q)
    ensures r == q
  {
    SameMembers(rows, s);
    SameLengthSameNet(r, q, addr);
  }

  /** Stable sorting does not change what matches. */
  lemma StableSameMatch(rows: seq<Row>, s: seq<Row>, addr: nat)
    requires ValidRows(rows) && ValidRows(s) && StableRearrangement(rows, s)
    ensures LongestMatch(rows, addr) == LongestMatch(s, addr)
  {
    LongestMatchMeaning(rows, addr, |rows|);
    LongestMatchMeaning(s, addr, |s|);
    assert rows[..|rows|] == rows && s[..|s|] == s;
    SameMembers(rows, s);
    var r, q := LongestMatch(rows, addr), LongestMatch(s, addr);
    if r.Some? && q.Some? {
      LongestIsUnique(rows, s, addr, r.value, q.value);
    }
  }

  // ----- on a sorted table the longest match is the last covering row

  ghost function LastCovering(s: seq<Row>, addr: nat, m: nat): (r: int)
    requires m <= |s|
    ensures -1 <= r < m
    ensures r >= 0 ==> Covers(s[r], addr)
    ensures forall k :: r < k < m ==> !Covers(s[k], addr)
  {
    if m == 0 then -1 else if Covers(s[m - 1], addr) then m - 1 else LastCovering(s, addr, m - 1)
  }

  /** Of two rows covering one address the earlier covers the later. */
  lemma CoveringChain(s: seq<Row>, addr: nat, j: nat, i: nat)
    requires SortedTable(s) && addr < ADDRESS_LIMIT && j < i < |s|
    requires Covers(s[j], addr) && Covers(s[i], addr)
    ensures Covers(s[j], s[i].net) && s[j].masknum <= s[i].masknum
  {
    RowInterval(s[i], addr);
    CoverConvex(s[j], s[i], addr);
    CoveredLiesInside(s[j], s[i]);
  }

  lemma {:induction false} SortedMatch(s: seq<Row>, addr: nat, m: nat)
    requires SortedTable(s) && addr < ADDRESS_LIMIT && m <= |s|
    ensures var i := LastCovering(s, addr, m);
            LongestMatchUpTo(s, addr, m) == if i == -1 then None else Some(s[i])
  {
    if m > 0 {
      SortedMatch(s, addr, m - 1);
      var i := LastCovering(s, addr, m - 1);
      if Covers(s[m - 1], addr) && i >= 0 {
        CoveringChain(s, addr, i, m - 1);
      }
    }
  }

  // ----- blocks of the flattened table

  /** The entries `start..start + num`: rows in order, none covering another. */
  ghost predicate SearchableBlock(t: seq<TableEntry>, start: nat, num: nat) {
    && start + num <= |t|
    && (forall k :: start <= k < start + num ==> ValidRow(t[k].row))
    && forall j, k :: start <= j < k < start + num ==>
         RowLe(t[j].row, t[k].row) && !Covers(t[j].row, t[k].row.net)
  }

  /** `t` is the flattened form of the sorted rows `s`, nested as `lv` says. */
  ghost predicate Flattened(t: seq<TableEntry>, s: seq<Row>, lv: seq<nat>) {
    SortedTable(s) && IsDepths(s, lv) && FlatTable(t, s, lv)
  }

  /** The entries `start..start + num` are the block of children of `p`. */
  ghost predicate IsBlock(t: seq<TableEntry>, lv: seq<nat>, p: int, start: nat, num: nat) {
    start == BlockStart(lv, p) && num == BlockSize(lv, p) && start + num <= |t|
  }

  lemma BlockInTable(t: seq<TableEntry>, lv: seq<nat>, p: int)
    requires |t| == |lv| && -1 <= p < |lv|
    ensures IsBlock(t, lv, p, BlockStart(lv, p), BlockSize(lv, p))
  {
    BlocksAdjacent(lv, p);
    ParentBeforeMonotone(lv, p + 1, |lv|, |lv|);
  }

  /** Every entry of the block of `p` is a child of `p`, in their order. */
  lemma EntryIsChild(t: seq<TableEntry>, s: seq<Row>, lv: seq<nat>, p: int, start: nat, num: nat, k: nat)
    returns (c: nat)
    requires FlatTable(t, s, lv) && IsBlock(t, lv, p, start, num) && start <= k < start + num
    ensures c < |s| && Parent(lv, c) == p && ChildCount(lv, p, c) == k - start
    ensures t[k] == TableEntry(s[c], ChildBlock(lv, c)) && Slot(lv, c) == k
  {
    c := NthChild(lv, p, k - start, |lv|);
    assert Holds(t, Slot(lv, c), TableEntry(s[c], ChildBlock(lv, c)));
  }

  lemma SiblingsInOrder(s: seq<Row>, lv: seq<nat>, c: nat, d: nat)
    requires SortedTable(s) && IsDepths(s, lv) && c < d < |s| && Parent(lv, c) == Parent(lv, d)
    ensures RowLe(s[c], s[d]) && !Covers(s[c], s[d].net)
  {
    DepthsAreLevels(s, lv);
    CoverIsDescent(s, lv, c, d);
    ParentLevel(lv, c);
    ParentLevel(lv, d);
  }

  lemma EntryValid(t: seq<TableEntry>, s: seq<Row>, lv: seq<nat>, p: int, start: nat, num: nat, k: nat)
    requires Flattened(t, s, lv) && IsBlock(t, lv, p, start, num) && start <= k < start + num
    ensures ValidRow(t[k].row)
  {
    var c := EntryIsChild(t, s, lv, p, start, num, k);
  }

  lemma EntriesInOrder(t: seq<TableEntry>, s: seq<Row>, lv: seq<nat>, p: int, start: nat, num: nat, j: nat, k: nat)
    requires Flattened(t, s, lv) && IsBlock(t, lv, p, start, num) && start <= j < k < start + num
    ensures RowLe(t[j].row, t[k].row) && !Covers(t[j].row, t[k].row.net)
  {
    var c := EntryIsChild(t, s, lv, p, start, num, j);
    var d := EntryIsChild(t, s, lv, p, start, num, k);
    ChildOrder(lv, p, c, d);
    SiblingsInOrder(s, lv, c, d);
  }

  lemma BlockIsSearchable(t: seq<TableEntry>, s: seq<Row>, lv: seq<nat>, p: int, start: nat, num: nat)
    requires Flattened(t, s, lv) && IsBlock(t, lv, p, start, num)
    ensures SearchableBlock(t, start, num)
  {
    forall k | start <= k < start + num ensures ValidRow(t[k].row) {
      EntryValid(t, s, lv, p, start, num, k);
    }
    forall j, k | start <= j < k < start + num
      ensures RowLe(t[j].row, t[k].row) && !Covers(t[j].row, t[k].row.net)
    {
      EntriesInOrder(t, s, lv, p, start, num, j, k);
    }
  }

  /** A parent covers every entry of the block it points to, and none of
      them is less specific. */
  lemma ParentCoversBlock(t: seq<TableEntry>, s: seq<Row>, lv: seq<nat>, e: nat, k: nat)
    requires Flattened(t, s, lv) && e < |t| && t[e].childs.Children?
    requires t[e].childs.start <= k < t[e].childs.start + t[e].childs.num
    ensures e < k < |t| && Covers(t[e].row, t[k].row.net) && t[e].row.masknum <= t[k].row.masknum
  {
    var p := SlotSurjective(lv, e);
    assert Holds(t, Slot(lv, p), TableEntry(s[p], ChildBlock(lv, p)));
    BlockInTable(t, lv, p);
    var c := EntryIsChild(t, s, lv, p, t[e].childs.start, t[e].childs.num, k);
    DepthsAreLevels(s, lv);
    ParentIsAbove(lv, c);
    CoverIsDescent(s, lv, p, c);
    CoveredLiesInside(s[p], s[c]);
    SlotOrder(lv, p, c);
  }

  /** What a search of the block of `p` finds: the last covering row of the
      whole table, unless that is `p` itself. */
  ghost function BlockAnswer(s: seq<Row>, lv: seq<nat>, addr: nat, p: int): Option<nat>
    requires |lv| == |s|
  {
    var last := LastCovering(s, addr, |s|);
    if last == p || last == -1 then None else Some(Slot(lv, last))
  }

  ghost predicate Inside(s: seq<Row>, addr: nat, p: int) {
    -1 <= p < |s| && (p >= 0 ==> Covers(s[p], addr))
  }

  /** A row below `p` that covers the address has a covering ancestor, or is
      itself, among the children of `p`. */
  lemma CoveringChild(s: seq<Row>, lv: seq<nat>, addr: nat, p: int, last: nat) returns (c: nat)
    requires SortedTable(s) && IsDepths(s, lv) && Inside(s, addr, p) && addr < ADDRESS_LIMIT
    requires p < last < |s| && Covers(s[last], addr)
    ensures c < |s| && Parent(lv, c) == p && Covers(s[c], addr)
  {
    DepthsAreLevels(s, lv);
    if p >= 0 {
      CoveringChain(s, addr, p, last);
      CoverIsDescent(s, lv, p, last);
    }
    c := ChildOnThePath(lv, p, last);
    if c < last {
      CoverIsDescent(s, lv, c, last);
      CoverTransitive(s[c], s[last], addr);
    }
  }

  /** If no entry of the block of `p` covers the address, nothing below `p`
      does. */
  lemma NothingInBlock(t: seq<TableEntry>, s: seq<Row>, lv: seq<nat>, addr: nat, p: int, start: nat, num: nat)
    requires Flattened(t, s, lv) && IsBlock(t, lv, p, start, num) && Inside(s, addr, p) && addr < ADDRESS_LIMIT
    requires forall k :: start <= k < start + num ==> !Covers(t[k].row, addr)
    ensures BlockAnswer(s, lv, addr, p) == None
  {
    var last := LastCovering(s, addr, |s|);
    forall c | 0 <= c < |s| && Parent(lv, c) == p ensures !Covers(s[c], addr) {
      SlotInBlock(lv, c);
      assert Holds(t, Slot(lv, c), TableEntry(s[c], ChildBlock(lv, c)));
    }
    if p < last {
      var c := CoveringChild(s, lv, addr, p, last);
    }
  }

  /** If the entry of row `c` covers the address, the answer is the answer
      below `c`, or `c` itself. */
  lemma DescendInto(s: seq<Row>, lv: seq<nat>, addr: nat, p: int, c: nat)
    requires |lv| == |s| && c < |s| && Parent(lv, c) == p && Covers(s[c], addr)
    ensures BlockAnswer(s, lv, addr, p) ==
            if BlockAnswer(s, lv, addr, c) == None then Some(Slot(lv, c)) else BlockAnswer(s, lv, addr, c)
  {
  }

  /** The block of a child comes after the block of its parent. */
  lemma ChildBlockLater(lv: seq<nat>, p: int, c: nat)
    requires c < |lv| && Parent(lv, c) == p
    ensures BlockStart(lv, c) > BlockStart(lv, p)
  {
    BlocksAdjacent(lv, p);
    SlotInBlock(lv, c);
    ParentBeforeMonotone(lv, p + 1, c, |lv|);
  }
}
