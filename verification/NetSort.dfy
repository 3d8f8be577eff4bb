/**
 The in-place merge sort of the networks table. Besides sorting it is stable:
 rows with the same network and mask keep the order they have in the file.
 */
module NetSort {
  import opened NetPrefix

  /** The rows with a given network and mask, in order. */
  ghost function SameKey(s: seq<Row>, net: nat, mask: nat): seq<Row> {
    if s == [] then []
    else if s[0].net == net && s[0].mask == mask then [s[0]] + SameKey(s[1..], net, mask)
    else SameKey(s[1..], net, mask)
  }

  /** `t` holds the rows of `s`, those with equal keys in the same order. */
  ghost predicate StableRearrangement(s: seq<Row>, t: seq<Row>) {
    && multiset(s) == multiset(t)
    && forall net, mask :: SameKey(s, net, mask) == SameKey(t, net, mask)
  }

  lemma SameMembers(rows: seq<Row>, s: seq<Row>)
    requires multiset(rows) == multiset(s)
    ensures forall r :: r in rows <==> r in s
  {
    forall r ensures r in rows <==> r in s {
      assert r in rows <==> r in multiset(rows);
      assert r in s <==> r in multiset(s);
    }
  }

  /** Two-way merge that prefers the left sequence on equal keys. */
  function Merged(v1: seq<Row>, v2: seq<Row>): seq<Row> {
    if v1 == [] then v2
    else if v2 == [] then v1
    else if RowLe(v1[0], v2[0]) then [v1[0]] + Merged(v1[1..], v2)
    else [v2[0]] + Merged(v1, v2[1..])
  }

  lemma {:induction false} MergedMultiset(v1: seq<Row>, v2: seq<Row>)
    ensures multiset(Merged(v1, v2)) == multiset(v1) + multiset(v2)
  {
    if v1 != [] && v2 != [] {
      if RowLe(v1[0], v2[0]) {
        MergedMultiset(v1[1..], v2);
        assert v1 == [v1[0]] + v1[1..];
      } else {
        MergedMultiset(v1, v2[1..]);
        assert v2 == [v2[0]] + v2[1..];
      }
    }
  }

  lemma MergedLength(v1: seq<Row>, v2: seq<Row>)
    ensures |Merged(v1, v2)| == |v1| + |v2|
  {
  }

  lemma MergedMember(v1: seq<Row>, v2: seq<Row>, r: Row)
    ensures r in Merged(v1, v2) <==> r in v1 || r in v2
  {
    MergedMultiset(v1, v2);
    assert r in Merged(v1, v2) <==> r in multiset(Merged(v1, v2));
    assert r in v1 <==> r in multiset(v1);
    assert r in v2 <==> r in multiset(v2);
  }

  lemma PrependSorted(r: Row, s: seq<Row>)
    requires SortedRows(s)
    requires forall x :: x in s ==> RowLe(r, x)
    ensures SortedRows([r] + s)
  {
    var t := [r] + s;
    forall i, j | 0 <= i < j < |t| ensures RowLe(t[i], t[j]) {
      assert t[j] == s[j - 1] && s[j - 1] in s;
      if i > 0 {
        assert t[i] == s[i - 1];
      }
    }
  }

  lemma TailSorted(s: seq<Row>)
    requires SortedRows(s) && s != []
    ensures SortedRows(s[1..])
    ensures forall x :: x in s ==> x == s[0] || RowLe(s[0], x)
  {
  }

  lemma {:induction false} MergedSorted(v1: seq<Row>, v2: seq<Row>)
    requires SortedRows(v1) && SortedRows(v2)
    ensures SortedRows(Merged(v1, v2))
  {
    if v1 != [] && v2 != [] {
      TailSorted(v1);
      TailSorted(v2);
      if RowLe(v1[0], v2[0]) {
        MergedSorted(v1[1..], v2);
        forall x | x in Merged(v1[1..], v2) ensures RowLe(v1[0], x) {
          MergedMember(v1[1..], v2, x);
        }
        PrependSorted(v1[0], Merged(v1[1..], v2));
      } else {
        MergedSorted(v1, v2[1..]);
        forall x | x in Merged(v1, v2[1..]) ensures RowLe(v2[0], x) {
          MergedMember(v1, v2[1..], x);
        }
        PrependSorted(v2[0], Merged(v1, v2[1..]));
      }
    }
  }

  lemma {:induction false} SameKeyAppend(s: seq<Row>, t: seq<Row>, net: nat, mask: nat)
    ensures SameKey(s + t, net, mask) == SameKey(s, net, mask) + SameKey(t, net, mask)
  {
    if s == [] {
      assert s + t == t;
    } else {
      assert (s + t)[1..] == s[1..] + t;
      SameKeyAppend(s[1..], t, net, mask);
    }
  }

  lemma {:induction false} SameKeyAbsent(s: seq<Row>, net: nat, mask: nat)
    requires forall i :: 0 <= i < |s| ==> s[i].net != net || s[i].mask != mask
    ensures SameKey(s, net, mask) == []
  {
    if s != [] {
      SameKeyAbsent(s[1..], net, mask);
    }
  }

  lemma {:induction false} MergedStable(v1: seq<Row>, v2: seq<Row>, net: nat, mask: nat)
    requires SortedRows(v1)
    ensures SameKey(Merged(v1, v2), net, mask) == SameKey(v1, net, mask) + SameKey(v2, net, mask)
  {
    if v1 != [] && v2 != [] {
      if RowLe(v1[0], v2[0]) {
        MergedStable(v1[1..], v2, net, mask);
      } else {
        MergedStable(v1, v2[1..], net, mask);
        if v2[0].net == net && v2[0].mask == mask {
          forall i | 0 <= i < |v1| ensures v1[i].net != net || v1[i].mask != mask {
            assert i > 0 ==> RowLe(v1[0], v1[i]);
          }
          SameKeyAbsent(v1, net, mask);
        }
      }
    }
  }

  /** How the rest of the merge shrinks when one row is taken. */
  lemma MergedStep(v1: seq<Row>, v2: seq<Row>, i1: nat, i2: nat, goal: seq<Row>)
    requires i1 <= |v1| && i2 <= |v2| && |goal| == |v1| + |v2|
    requires Merged(v1[i1..], v2[i2..]) == goal[i1 + i2..]
    ensures i1 < |v1| && (i2 == |v2| || RowLe(v1[i1], v2[i2])) ==>
              && goal[i1 + i2] == v1[i1]
              && Merged(v1[i1 + 1..], v2[i2..]) == goal[i1 + i2 + 1..]
    ensures i2 < |v2| && (i1 == |v1| || !RowLe(v1[i1], v2[i2])) ==>
              && goal[i1 + i2] == v2[i2]
              && Merged(v1[i1..], v2[i2 + 1..]) == goal[i1 + i2 + 1..]
  {
    var a, b, g := v1[i1..], v2[i2..], goal[i1 + i2..];
    assert i1 < |v1| ==> a[0] == v1[i1] && a[1..] == v1[i1 + 1..];
    assert i2 < |v2| ==> b[0] == v2[i2] && b[1..] == v2[i2 + 1..];
    assert i1 + i2 < |goal| ==> g[0] == goal[i1 + i2] && g[1..] == goal[i1 + i2 + 1..];
  }

  /** `b` agrees with `a` outside `[start, end)`. */
  ghost predicate SameOutside(a: seq<Row>, b: seq<Row>, start: nat, end: nat) {
    && |a| == |b|
    && forall k :: 0 <= k < |a| && !(start <= k < end) ==> a[k] == b[k]
  }

  /** `a` and `b` agree except that `b` holds `piece` from `from` on. */
  ghost predicate Wrote(a: seq<Row>, b: seq<Row>, from: nat, piece: seq<Row>) {
    && SameOutside(a, b, from, from + |piece|)
    && from + |piece| <= |b|
    && b[from..from + |piece|] == piece
  }

  lemma WroteTwice(a: seq<Row>, b: seq<Row>, c: seq<Row>, from: nat, p: seq<Row>, q: seq<Row>)
    requires Wrote(a, b, from, p) && Wrote(b, c, from + |p|, q)
    ensures Wrote(a, c, from, p + q)
  {
    var r := p + q;
    forall k | 0 <= k < |r| ensures c[from + k] == r[k] {
      if k < |p| {
        assert b[from..from + |p|][k] == p[k];
      } else {
        assert c[from + |p|..from + |p| + |q|][k - |p|] == q[k - |p|];
      }
    }
  }

  /** The merge step of the sort: `table[start..middle]` and
      `table[middle..end]` are merged back into the table. */
  method Merge(table: array<Row>, start: nat, middle: nat, end: nat)
    requires start <= middle <= end <= table.Length
    modifies table
    ensures Wrote(old(table[..]), table[..], start, Merged(old(table[..])[start..middle], old(table[..])[middle..end]))
  {
    var v1, v2 := table[..][start..middle], table[..][middle..end];
    ghost var t0 := table[..];
    ghost var heads;
    var rest1, rest2;
    rest1, rest2, heads := MergeHeads(table, start, v1, v2);
    ghost var t1 := table[..];
    CopyRest(table, end - |rest2| - |rest1|, rest1);
    ghost var t2 := table[..];
    WroteTwice(t0, t1, t2, start, heads, rest1);
    assert start + |heads + rest1| == end - |rest2|;
    CopyRest(table, end - |rest2|, rest2);
    WroteTwice(t0, t2, table[..], start, heads + rest1, rest2);
  }

  lemma WroteNothing(a: seq<Row>, from: nat)
    requires from <= |a|
    ensures Wrote(a, a, from, [])
  {
  }

  /** One more row behind what has been written. */
  lemma WroteNext(a: seq<Row>, b: seq<Row>, from: nat, goal: seq<Row>, i: nat)
    requires i < |goal| && from + |goal| <= |b| && Wrote(a, b, from, goal[..i])
    ensures Wrote(a, b[from + i := goal[i]], from, goal[..i + 1])
  {
    var c := b[from + i := goal[i]];
    forall k | 0 <= k <= i ensures c[from..from + i + 1][k] == goal[k] {
      if k < i {
        assert b[from..from + i][k] == goal[..i][k];
      }
    }
    assert c[from..from + i + 1] == goal[..i + 1];
  }

  method SetRow(table: array<Row>, k: nat, r: Row)
    requires k < table.Length
    modifies table
    ensures table[..] == old(table[..])[k := r]
  {
    table[k] := r;
  }

  /** Rows are taken from one half or the other until one is used up; what
      is left of the halves is returned. */
  method MergeHeads(table: array<Row>, start: nat, v1: seq<Row>, v2: seq<Row>)
    returns (rest1: seq<Row>, rest2: seq<Row>, ghost heads: seq<Row>)
    requires start + |v1| + |v2| <= table.Length
    modifies table
    ensures rest1 == [] || rest2 == []
    ensures Merged(v1, v2) == heads + rest1 + rest2
    ensures |heads| + |rest1| + |rest2| == |v1| + |v2|
    ensures Wrote(old(table[..]), table[..], start, heads)
  {
    hide Merged, Wrote;
    ghost var goal := Merged(v1, v2);
    MergedLength(v1, v2);
    assert v1[0..] == v1 && v2[0..] == v2 && goal[0..] == goal && goal[..0] == [];
    WroteNothing(table[..], start);
    var i, v1Index, v2Index := 0, 0, 0;
    while v1Index < |v1| && v2Index < |v2|
      invariant v1Index <= |v1| && v2Index <= |v2| && i == v1Index + v2Index
      invariant Wrote(old(table[..]), table[..], start, goal[..i])
      invariant Merged(v1[v1Index..], v2[v2Index..]) == goal[i..]
    {
      MergedStep(v1, v2, v1Index, v2Index, goal);
      WroteNext(old(table[..]), table[..], start, goal, i);
      if RowLe(v1[v1Index], v2[v2Index]) {
        SetRow(table, start + i, v1[v1Index]);
        v1Index := v1Index + 1;
      } else {
        SetRow(table, start + i, v2[v2Index]);
        v2Index := v2Index + 1;
      }
      i := i + 1;
    }
    rest1, rest2, heads := v1[v1Index..], v2[v2Index..], goal[..i];
    MergeStops(rest1, rest2, goal, i);
  }

  lemma MergeStops(rest1: seq<Row>, rest2: seq<Row>, goal: seq<Row>, i: nat)
    requires i <= |goal| && Merged(rest1, rest2) == goal[i..] && (rest1 == [] || rest2 == [])
    ensures goal == goal[..i] + rest1 + rest2
  {
  }

  /** A clean-up loop: what is left of one half is copied. */
  method CopyRest(table: array<Row>, from: nat, rest: seq<Row>)
    requires from + |rest| <= table.Length
    modifies table
    ensures Wrote(old(table[..]), table[..], from, rest)
  {
    for i := 0 to |rest|
      invariant forall k :: 0 <= k < table.Length && !(from <= k < from + i) ==> table[k] == old(table[k])
      invariant forall k :: from <= k < from + i ==> table[k] == rest[k - from]
    {
      table[from + i] := rest[i];
    }
  }

  method MergeSort(table: array<Row>, start: nat, end: nat)
    requires start <= end <= table.Length
    modifies table
    ensures SortedRows(table[..][start..end])
    ensures StableRearrangement(old(table[..])[start..end], table[..][start..end])
    ensures SameOutside(old(table[..]), table[..], start, end)
    decreases end - start
  {
    if start == end || start == end - 1 {
      return;
    }
    var middle := (start + end) / 2;
    ghost var s0 := table[..];
    MergeSort(table, start, middle);
    ghost var s1 := table[..];
    MergeSort(table, middle, end);
    ghost var s2 := table[..];
    Merge(table, start, middle, end);
    SortSteps(s0, s1, s2, table[..], start, middle, end);
    MergeHalves(s0[start..middle], s0[middle..end], s2[start..middle], s2[middle..end]);
  }

  /** The four successive contents of the table in one level of the sort. */
  lemma SortSteps(s0: seq<Row>, s1: seq<Row>, s2: seq<Row>, s3: seq<Row>, start: nat, middle: nat, end: nat)
    requires start <= middle <= end <= |s0|
    requires SameOutside(s0, s1, start, middle) && SameOutside(s1, s2, middle, end)
    requires Wrote(s2, s3, start, Merged(s2[start..middle], s2[middle..end]))
    ensures s1[middle..end] == s0[middle..end] && s2[start..middle] == s1[start..middle]
    ensures s3[start..end] == Merged(s2[start..middle], s2[middle..end])
    ensures s0[start..end] == s0[start..middle] + s0[middle..end]
    ensures SameOutside(s0, s3, start, end)
  {
    MergedLength(s2[start..middle], s2[middle..end]);
  }

  lemma MergeHalves(left: seq<Row>, right: seq<Row>, left': seq<Row>, right': seq<Row>)
    requires SortedRows(left') && SortedRows(right')
    requires StableRearrangement(left, left') && StableRearrangement(right, right')
    ensures SortedRows(Merged(left', right'))
    ensures StableRearrangement(left + right, Merged(left', right'))
  {
    MergedSorted(left', right');
    MergedMultiset(left', right');
    forall net, mask
      ensures SameKey(left + right, net, mask) == SameKey(Merged(left', right'), net, mask)
    {
      MergedStable(left', right', net, mask);
      SameKeyAppend(left, right, net, mask);
    }
  }
}
