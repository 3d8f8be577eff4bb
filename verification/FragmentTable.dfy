/**
 The fragment table. Its nodes are on bucket chains and on one list kept in
 order of deadline, which is why pruning may stop at the first node that is
 not stale. What the nodes hold besides key and deadline is not modelled.

 Pruning does not reset the sentinel's pointer when it empties the list; the
 model keeps that pointer, and says exactly when it would be followed.
 */
module FragmentTable {
  import opened LinkedTable

  const IPF_TIMEOUT: nat := 60
  const PRUNE_INTERVAL: nat := 7200
  const EMER_PRUNE_INTERVAL: nat := 60
  const PRUNE_OFFSET: nat := 1800
  const IPFT_HASHSZ: nat := 256
  const CLOCK_LIMIT: nat := 0x1_0000_0000

  datatype FragmentKey = FragmentKey(id: nat, src: nat, dst: nat, proto: nat)

  datatype Fragment = Fragment(key: FragmentKey, deadline: nat)

  type Nodes = Memory<Fragment>

  /** The unsigned 32-bit difference `now - off`. */
  function PruneLimit(now: nat, off: nat): nat
    requires now < CLOCK_LIMIT && off < CLOCK_LIMIT
  {
    if now >= off then now - off else now + CLOCK_LIMIT - off
  }

  // ----- a list whose sentinel is not looked at

  ghost predicate TailAt(mem: Nodes, rest: seq<nat>, i: nat)
    requires i < |rest|
  {
    && rest[i] != NULL && rest[i] in mem
    && mem[rest[i]].lruNext == At(rest, i + 1)
    && (i > 0 ==> mem[rest[i]].lruPrev == rest[i - 1])
  }

  ghost predicate Tail(mem: Nodes, rest: seq<nat>) {
    && Distinct(rest)
    && forall i {:trigger TailAt(mem, rest, i)} :: 0 <= i < |rest| ==> TailAt(mem, rest, i)
  }

  /** The nodes in order of deadline, none later than `latest`. */
  ghost predicate InOrder(mem: Nodes, rest: seq<nat>, latest: nat) {
    && (forall i :: 0 <= i < |rest| ==> rest[i] in mem && mem[rest[i]].data.deadline <= latest)
    && forall i, j :: 0 <= i < j < |rest| ==>
         rest[i] in mem && rest[j] in mem && mem[rest[i]].data.deadline <= mem[rest[j]].data.deadline
  }

  ghost predicate InPlace(mem: Nodes, root: nat, hash: FragmentKey -> nat, size: nat) {
    && size > 0
    && (forall p :: p in mem && p != root ==> mem[p].bucket == hash(mem[p].data.key) % size)
    && forall p, q :: p in mem && q in mem && p != root && q != root && mem[p].data.key == mem[q].data.key ==> p == q
  }

  datatype Shape = Shape(mem: Nodes, buckets: seq<nat>, rest: seq<nat>, chains: seq<seq<nat>>)

  /** Chains and nodes agree, whatever the list pointers are. */
  ghost predicate Chained(t: Shape, root: nat, hash: FragmentKey -> nat) {
    && root != NULL && root in t.mem && root !in t.rest
    && Chains(t.mem, t.buckets, t.chains)
    && SameNodes(t.mem, [root] + t.rest, t.chains)
    && InPlace(t.mem, root, hash, |t.buckets|)
  }

  /** The list hangs on the sentinel, unless it is empty. */
  ghost predicate Hung(t: Shape, root: nat) {
    |t.rest| > 0 ==> LruPath(t.mem, [root] + t.rest)
  }

  ghost predicate GoodShape(t: Shape, root: nat, hash: FragmentKey -> nat, latest: nat) {
    Chained(t, root, hash) && Hung(t, root) && Tail(t.mem, t.rest) && InOrder(t.mem, t.rest, latest)
  }

  lemma TailOfPath(mem: Nodes, root: nat, rest: seq<nat>)
    requires LruPath(mem, [root] + rest)
    ensures Tail(mem, rest)
    ensures root in mem && mem[root].lruNext == At(rest, 0)
  {
    var path := [root] + rest;
    assert LruAt(mem, path, 0);
    forall i | 0 <= i < |rest| ensures TailAt(mem, rest, i) {
      assert LruAt(mem, path, i + 1) && path[i + 1] == rest[i];
      assert i > 0 ==> path[i] == rest[i - 1];
      assert i + 1 < |rest| ==> path[i + 2] == rest[i + 1];
    }
    forall i, j | 0 <= i < j < |rest| ensures rest[i] != rest[j] {
      assert path[i + 1] == rest[i] && path[j + 1] == rest[j];
    }
  }

  /** Hanging a list on the sentinel. */
  lemma PathOfTail(mem: Nodes, root: nat, rest: seq<nat>)
    requires Tail(mem, rest) && |rest| > 0 && root in mem && root != NULL && root !in rest
    ensures rest[0] in mem
    ensures LruPath(SetLruNext(SetLruPrev(mem, rest[0], root), root, rest[0]), [root] + rest)
  {
    assert TailAt(mem, rest, 0);
    var mem', path := SetLruNext(SetLruPrev(mem, rest[0], root), root, rest[0]), [root] + rest;
    forall i | 0 <= i < |path| ensures LruAt(mem', path, i) {
      if i > 0 {
        assert TailAt(mem, rest, i - 1) && path[i] == rest[i - 1];
        assert i > 1 ==> path[i - 1] == rest[i - 2];
        assert i < |rest| ==> path[i + 1] == rest[i];
      }
    }
    forall i, j | 0 <= i < j < |path| ensures path[i] != path[j] {
      assert path[j] == rest[j - 1] && (i > 0 ==> path[i] == rest[i - 1]);
    }
  }

  // ----- pruning one node off the front

  /** The memory after the front node left its chain and was freed; its
      neighbours on the list are not told. */
  ghost function FrontFreed(t: Shape, j: nat): Shape
    requires |t.rest| > 0 && t.rest[0] in t.mem
    requires var n := t.mem[t.rest[0]];
             && (n.prev != NULL ==> n.prev in t.mem) && (n.next != NULL ==> n.next in t.mem)
             && n.bucket < |t.chains| == |t.buckets| && j < |t.chains[n.bucket]|
  {
    var p := t.rest[0];
    Shape(Unchain(t.mem, p) - {p}, HeadsWithout(t.mem, t.buckets, p), t.rest[1..], ChainsWithout(t.mem, t.chains, p, j))
  }

  lemma FreedTail(mem: Nodes, mem': Nodes, rest: seq<nat>)
    requires Tail(mem, rest) && |rest| > 0
    requires forall p :: p in mem && p != rest[0] ==>
               p in mem' && mem'[p].lruNext == mem[p].lruNext && mem'[p].lruPrev == mem[p].lruPrev
    ensures Tail(mem', rest[1..])
  {
    var rest' := rest[1..];
    forall i | 0 <= i < |rest'| ensures TailAt(mem', rest', i) {
      assert TailAt(mem, rest, i + 1);
    }
  }

  lemma UnchainKeeps(mem: Nodes, p: nat)
    requires p in mem && (mem[p].prev != NULL ==> mem[p].prev in mem) && (mem[p].next != NULL ==> mem[p].next in mem)
    ensures Unchain(mem, p).Keys == mem.Keys
    ensures forall q :: q in mem ==>
              && Unchain(mem, p)[q].data == mem[q].data && Unchain(mem, p)[q].bucket == mem[q].bucket
              && Unchain(mem, p)[q].lruNext == mem[q].lruNext && Unchain(mem, p)[q].lruPrev == mem[q].lruPrev
  {
  }

  lemma FrontChains(t: Shape, root: nat, hash: FragmentKey -> nat) returns (j: nat)
    requires Chained(t, root, hash) && |t.rest| > 0 && t.rest[0] in t.mem && t.rest[0] != root
    ensures var p := t.rest[0]; var n := t.mem[p];
            && (n.prev != NULL ==> n.prev in t.mem) && (n.next != NULL ==> n.next in t.mem)
            && n.bucket < |t.chains| == |t.buckets| && j < |t.chains[n.bucket]| && t.chains[n.bucket][j] == p
            && Chains(FrontFreed(t, j).mem, FrontFreed(t, j).buckets, FrontFreed(t, j).chains)
  {
    var p := t.rest[0];
    var b := t.mem[p].bucket;
    j :| 0 <= j < |t.chains[b]| && t.chains[b][j] == p;
    ChainsUnlink(t.mem, t.buckets, t.chains, b, j);
    assert Chain(t.mem, t.buckets[b], t.chains[b], b);
    GoneOnceRemoved(t.chains[b], j);
    NotInOtherChains(t.mem, t.buckets, t.chains, b, p);
    UnchainKeeps(t.mem, p);
    ChainsFrame(Unchain(t.mem, p), Unchain(t.mem, p) - {p}, HeadsWithout(t.mem, t.buckets, p),
        ChainsWithout(t.mem, t.chains, p, j));
  }

  lemma FrontSameNodes(t: Shape, mem': Nodes, root: nat, j: nat)
    requires |t.rest| > 0 && Distinct(t.rest) && root !in t.rest && t.rest[0] in t.mem
    requires SameNodes(t.mem, [root] + t.rest, t.chains)
    requires var b := t.mem[t.rest[0]].bucket;
             && b < |t.chains| && j < |t.chains[b]| && t.chains[b][j] == t.rest[0] && Distinct(t.chains[b])
             && forall b' :: 0 <= b' < |t.chains| && b' != b ==> t.rest[0] !in t.chains[b']
    requires mem'.Keys == t.mem.Keys - {t.rest[0]} && forall q :: q in mem' ==> mem'[q].bucket == t.mem[q].bucket
    ensures SameNodes(mem', [root] + t.rest[1..], ChainsWithout(t.mem, t.chains, t.rest[0], j))
  {
    var p, path, path' := t.rest[0], [root] + t.rest, [root] + t.rest[1..];
    var b := t.mem[p].bucket;
    var chains' := ChainsWithout(t.mem, t.chains, p, j);
    GoneOnceRemoved(t.chains[b], j);
    FrontGone(root, t.rest);
    forall b', q | 0 <= b' < |chains'| && q in chains'[b'] ensures q in path' && q != path'[0] {
      assert q in t.chains[b'] && q != p;
      assert q in path && q != path[0];
    }
    forall q | q in mem' && q != root ensures mem'[q].bucket < |chains'| && q in chains'[mem'[q].bucket] {
      assert q in t.chains[t.mem[q].bucket];
    }
  }

  lemma FrontGone(root: nat, rest: seq<nat>)
    requires |rest| > 0
    ensures forall q :: q in [root] + rest && q != rest[0] ==> q in [root] + rest[1..]
  {
    assert rest == [rest[0]] + rest[1..];
  }

  /** The loop invariant of pruning survives freeing the front node. */
  lemma FreeFront(t: Shape, root: nat, hash: FragmentKey -> nat, latest: nat) returns (j: nat)
    requires Chained(t, root, hash) && Tail(t.mem, t.rest) && InOrder(t.mem, t.rest, latest) && |t.rest| > 0
    ensures t.rest[0] in t.mem && t.rest[0] != root
    ensures var n := t.mem[t.rest[0]];
            && (n.prev != NULL ==> n.prev in t.mem) && (n.next != NULL ==> n.next in t.mem)
            && n.bucket < |t.chains| == |t.buckets| && j < |t.chains[n.bucket]|
            && n.lruNext == At(t.rest, 1)
    ensures var t' := FrontFreed(t, j);
            && Chained(t', root, hash) && Tail(t'.mem, t'.rest) && InOrder(t'.mem, t'.rest, latest)
            && t'.mem.Keys == t.mem.Keys - {t.rest[0]}
            && forall q :: q in t'.mem ==> t'.mem[q].data == t.mem[q].data
  {
    hide SameNodes, InOrder, InPlace, Unchain, ChainsWithout;
    var p := t.rest[0];
    assert TailAt(t.mem, t.rest, 0);
    assert p in t.rest;
    j := FrontChains(t, root, hash);
    var b := t.mem[p].bucket;
    assert Chain(t.mem, t.buckets[b], t.chains[b], b);
    NotInOtherChains(t.mem, t.buckets, t.chains, b, p);
    UnchainKeeps(t.mem, p);
    var mem' := Unchain(t.mem, p) - {p};
    FreedTail(t.mem, mem', t.rest);
    FrontSameNodes(t, mem', root, j);
    FreedOrder(t, mem', root, hash, latest);
  }

  lemma FreedOrder(t: Shape, mem': Nodes, root: nat, hash: FragmentKey -> nat, latest: nat)
    requires |t.rest| > 0 && Distinct(t.rest) && InOrder(t.mem, t.rest, latest) &&
             InPlace(t.mem, root, hash, |t.buckets|)
    requires mem'.Keys == t.mem.Keys - {t.rest[0]}
    requires forall q :: q in mem' ==> mem'[q].data == t.mem[q].data && mem'[q].bucket == t.mem[q].bucket
    ensures InOrder(mem', t.rest[1..], latest) && InPlace(mem', root, hash, |t.buckets|)
  {
  }

  // ----- adding and moving

  ghost function ShapeWith(t: Shape, root: nat, p: nat, b: nat, f: Fragment): Shape
    requires p !in t.mem && root in t.mem && b < |t.chains| == |t.buckets|
    requires |t.rest| > 0 ==> t.rest[|t.rest| - 1] in t.mem
    requires At(t.chains[b], |t.chains[b]| - 1) != NULL ==> At(t.chains[b], |t.chains[b]| - 1) in t.mem
  {
    var tail, last := At(t.chains[b], |t.chains[b]| - 1), if |t.rest| > 0 then t.rest[|t.rest| - 1] else root;
    Shape(Added(t.mem, tail, last, p, b, f), HeadsWith(t.buckets, tail, p, b), t.rest + [p],
        t.chains[b := t.chains[b] + [p]])
  }

  /** On an empty list the old pointer of the sentinel does not matter: it is
      overwritten. */
  lemma EmptyIsWellLinked(t: Shape, root: nat, hash: FragmentKey -> nat)
    requires Chained(t, root, hash) && t.rest == []
    ensures WellLinked(SetLruNext(t.mem, root, NULL), t.buckets, [root], t.chains)
  {
    var mem0 := SetLruNext(t.mem, root, NULL);
    assert LruAt(mem0, [root], 0);
    assert [root] + t.rest == [root];
    ChainsFrame(t.mem, mem0, t.buckets, t.chains);
  }

  lemma AddedOverwrites(mem: Nodes, tail: nat, last: nat, p: nat, b: nat, f: Fragment)
    requires p !in mem && last in mem && (tail != NULL ==> tail in mem)
    ensures Added(SetLruNext(mem, last, NULL), tail, last, p, b, f) == Added(mem, tail, last, p, b, f)
  {
  }

  lemma AddLinks(t: Shape, root: nat, hash: FragmentKey -> nat, latest: nat, p: nat, b: nat, f: Fragment)
    requires GoodShape(t, root, hash, latest) && p !in t.mem && p != NULL && b < |t.buckets|
    ensures b < |t.chains| == |t.buckets| && (|t.rest| > 0 ==> t.rest[|t.rest| - 1] in t.mem)
    ensures At(t.chains[b], |t.chains[b]| - 1) != NULL ==> At(t.chains[b], |t.chains[b]| - 1) in t.mem
    ensures var t' := ShapeWith(t, root, p, b, f);
            WellLinked(t'.mem, t'.buckets, [root] + t'.rest, t'.chains)
  {
    hide LruPath, Chain, SameNodes, Added, InPlace, Tail, InOrder;
    ChainTail(t.mem, t.buckets, t.chains, b);
    var tail, path := At(t.chains[b], |t.chains[b]| - 1), [root] + t.rest;
    assert [root] + (t.rest + [p]) == path + [p];
    if t.rest == [] {
      EmptyIsWellLinked(t, root, hash);
      AddNode(SetLruNext(t.mem, root, NULL), t.buckets, [root], t.chains, p, b, f);
      assert path == [root];
      AddedOverwrites(t.mem, tail, root, p, b, f);
    } else {
      assert path[|path| - 1] == t.rest[|t.rest| - 1];
      AddNode(t.mem, t.buckets, path, t.chains, p, b, f);
    }
  }

  /** A fragment with a deadline no earlier than any keeps the order at the
      end of the list. */
  lemma AddFragment(t: Shape, root: nat, hash: FragmentKey -> nat, latest: nat, p: nat, b: nat, f: Fragment)
    requires GoodShape(t, root, hash, latest) && p !in t.mem && p != NULL && b == hash(f.key) % |t.buckets|
    requires forall q :: q in t.mem && q != root ==> t.mem[q].data.key != f.key
    requires f.deadline >= latest
    ensures b < |t.chains| == |t.buckets| && (|t.rest| > 0 ==> t.rest[|t.rest| - 1] in t.mem)
    ensures At(t.chains[b], |t.chains[b]| - 1) != NULL ==> At(t.chains[b], |t.chains[b]| - 1) in t.mem
    ensures GoodShape(ShapeWith(t, root, p, b, f), root, hash, f.deadline)
  {
    hide LruPath, Chain, SameNodes, Added;
    AddLinks(t, root, hash, latest, p, b, f);
    var t' := ShapeWith(t, root, p, b, f);
    TailOfPath(t'.mem, root, t'.rest);
    RootOffTheList(t'.mem, root, t'.rest);
    var tail, last := At(t.chains[b], |t.chains[b]| - 1), if |t.rest| > 0 then t.rest[|t.rest| - 1] else root;
    AddedKeeps(t.mem, tail, last, p, b, f);
  }

  ghost function ShapeReused(t: Shape, root: nat, p: nat, m: nat, f: Fragment): Shape
    requires m < |t.rest| && p in t.mem && t.rest[|t.rest| - 1] in t.mem
    requires t.mem[p].lruNext != NULL ==> t.mem[p].lruPrev in t.mem && t.mem[p].lruNext in t.mem
  {
    var mem1 := if t.mem[p].lruNext == NULL then t.mem else MovedToEnd(t.mem, t.rest[|t.rest| - 1], p);
    var rest1 := if t.mem[p].lruNext == NULL then t.rest else RemoveAt(t.rest, m) + [p];
    Shape(mem1[p := mem1[p].(data := f)], t.buckets, rest1, t.chains)
  }

  lemma ReusePointers(t: Shape, root: nat, p: nat, m: nat)
    requires LruPath(t.mem, [root] + t.rest) && m < |t.rest| && t.rest[m] == p
    ensures p in t.mem && p != root && t.rest[|t.rest| - 1] in t.mem
    ensures t.mem[p].lruNext == NULL <==> m == |t.rest| - 1
    ensures t.mem[p].lruNext != NULL ==> t.mem[p].lruPrev in t.mem && t.mem[p].lruNext in t.mem
  {
    var path := [root] + t.rest;
    assert path[m + 1] == p && path[|path| - 1] == t.rest[|t.rest| - 1];
    assert LruAt(t.mem, path, m) && LruAt(t.mem, path, m + 1) && LruAt(t.mem, path, |path| - 1);
    assert m + 2 < |path| ==> LruAt(t.mem, path, m + 2);
    assert path[0] == root;
  }

  lemma ReuseLinks(t: Shape, root: nat, hash: FragmentKey -> nat, latest: nat, p: nat, m: nat, f: Fragment)
    requires GoodShape(t, root, hash, latest) && m < |t.rest| && t.rest[m] == p
    ensures p in t.mem && p != root && t.rest[|t.rest| - 1] in t.mem
    ensures t.mem[p].lruNext == NULL <==> m == |t.rest| - 1
    ensures t.mem[p].lruNext != NULL ==> t.mem[p].lruPrev in t.mem && t.mem[p].lruNext in t.mem
    ensures var t' := ShapeReused(t, root, p, m, f);
            WellLinked(t'.mem, t'.buckets, [root] + t'.rest, t'.chains)
  {
    hide LruPath, Chains, SameNodes, MovedToEnd, InPlace, InOrder, Tail;
    ReusePointers(t, root, p, m);
    var path := [root] + t.rest;
    assert path[m + 1] == p && path[|path| - 1] == t.rest[|t.rest| - 1];
    if m == |t.rest| - 1 {
      DataFrame(t.mem, t.buckets, path, t.chains, p, f);
    } else {
      MoveNode(t.mem, t.buckets, path, t.chains, p, m + 1);
      var mem1, path1 := MovedToEnd(t.mem, path[|path| - 1], p), RemoveAt(path, m + 1) + [p];
      MovedKeeps(t.mem, path[|path| - 1], p);
      DataFrame(mem1, t.buckets, path1, t.chains, p, f);
      assert path1 == [root] + (RemoveAt(t.rest, m) + [p]);
    }
  }

  /** A node given the latest deadline belongs at the end of the list. */
  lemma ReuseOrder(t: Shape, root: nat, hash: FragmentKey -> nat, latest: nat, p: nat, m: nat, f: Fragment)
    requires GoodShape(t, root, hash, latest) && m < |t.rest| && t.rest[m] == p && f.deadline >= latest
    requires p in t.mem && p != root && t.rest[|t.rest| - 1] in t.mem
    requires t.mem[p].lruNext == NULL <==> m == |t.rest| - 1
    requires t.mem[p].lruNext != NULL ==> t.mem[p].lruPrev in t.mem && t.mem[p].lruNext in t.mem
    requires |t.buckets| > 0 && hash(f.key) % |t.buckets| == t.mem[p].bucket
    requires forall q :: q in t.mem && q != root && q != p ==> t.mem[q].data.key != f.key
    ensures var t' := ShapeReused(t, root, p, m, f);
            InOrder(t'.mem, t'.rest, f.deadline) && InPlace(t'.mem, root, hash, |t'.buckets|)
  {
    hide LruPath, Chains, SameNodes, MovedToEnd, InOrder, InPlace;
    var t' := ShapeReused(t, root, p, m, f);
    if t.mem[p].lruNext != NULL {
      MovedKeeps(t.mem, t.rest[|t.rest| - 1], p);
    } else {
      assert RemoveAt(t.rest, m) + [p] == t.rest;
    }
    OrderAtEnd(t.mem, t'.mem, t.rest, m, latest, f.deadline);
    ReusePlace(t.mem, t'.mem, root, hash, |t.buckets|, p, f);
  }

  lemma OrderAtEnd(mem: Nodes, mem': Nodes, rest: seq<nat>, m: nat, latest: nat, deadline: nat)
    requires InOrder(mem, rest, latest) && Distinct(rest) && m < |rest| && latest <= deadline
    requires mem'.Keys == mem.Keys && rest[m] in mem && mem'[rest[m]].data.deadline == deadline
    requires forall q :: q in mem && q != rest[m] ==> mem'[q].data == mem[q].data
    ensures InOrder(mem', RemoveAt(rest, m) + [rest[m]], deadline)
  {
    var rest' := RemoveAt(rest, m) + [rest[m]];
    forall i | 0 <= i < |rest| - 1
      ensures rest'[i] == rest[if i < m then i else i + 1] && rest'[i] != rest[m]
    {
    }
  }

  lemma ReusePlace(mem: Nodes, mem': Nodes, root: nat, hash: FragmentKey -> nat, size: nat, p: nat, f: Fragment)
    requires size > 0 && InPlace(mem, root, hash, size) && p in mem && p != root && mem[p].bucket == hash(f.key) % size
    requires forall q :: q in mem && q != root && q != p ==> mem[q].data.key != f.key
    requires mem'.Keys == mem.Keys && mem'[p].data == f && mem'[p].bucket == mem[p].bucket
    requires forall q :: q in mem && q != p ==> mem'[q].data == mem[q].data && mem'[q].bucket == mem[q].bucket
    ensures InPlace(mem', root, hash, size)
  {
  }

  lemma ReuseFragment(t: Shape, root: nat, hash: FragmentKey -> nat, latest: nat, p: nat, m: nat, f: Fragment)
    requires GoodShape(t, root, hash, latest) && m < |t.rest| && t.rest[m] == p && f.deadline >= latest
    requires p in t.mem && hash(f.key) % |t.buckets| == t.mem[p].bucket
    requires forall q :: q in t.mem && q != root && q != p ==> t.mem[q].data.key != f.key
    ensures p != root && t.rest[|t.rest| - 1] in t.mem
    ensures t.mem[p].lruNext == NULL <==> m == |t.rest| - 1
    ensures t.mem[p].lruNext != NULL ==> t.mem[p].lruPrev in t.mem && t.mem[p].lruNext in t.mem
    ensures GoodShape(ShapeReused(t, root, p, m, f), root, hash, f.deadline)
  {
    hide LruPath, Chains, SameNodes, MovedToEnd, InPlace, InOrder, Tail;
    HasChains(t, root, hash);
    ReuseLinks(t, root, hash, latest, p, m, f);
    ReuseOrder(t, root, hash, latest, p, m, f);
    var t' := ShapeReused(t, root, p, m, f);
    TailOfPath(t'.mem, root, t'.rest);
    RootOffTheList(t'.mem, root, t'.rest);
  }

  lemma RootOffTheList(mem: Nodes, root: nat, rest: seq<nat>)
    requires LruPath(mem, [root] + rest)
    ensures root in mem && root != NULL && root !in rest
  {
    assert LruAt(mem, [root] + rest, 0);
    forall i | 0 <= i < |rest| ensures rest[i] != root {
      assert ([root] + rest)[i + 1] == rest[i];
    }
  }

  // ----- facts the operations use

  /** Pruning has freed stale nodes only and changed nothing else. */
  ghost predicate OnlyStaleGone(before: Nodes, now: Nodes, limit: nat) {
    && (forall q :: q in now ==> q in before && now[q].data == before[q].data)
    && forall q :: q in before && q !in now ==> before[q].data.deadline < limit
  }

  /** Stopping at the first node that is not stale loses nothing. */
  lemma StopIsExact(t: Shape, root: nat, hash: FragmentKey -> nat, latest: nat, limit: nat)
    requires Chained(t, root, hash) && InOrder(t.mem, t.rest, latest)
    requires |t.rest| > 0 ==> t.rest[0] in t.mem && t.mem[t.rest[0]].data.deadline >= limit
    ensures forall q :: q in t.mem && q != root ==> t.mem[q].data.deadline >= limit
  {
    forall q | q in t.mem && q != root ensures t.mem[q].data.deadline >= limit {
      assert q in [root] + t.rest;
      var i :| 0 <= i < |t.rest| && t.rest[i] == q;
    }
  }

  /** What holds while nodes are freed from the front: `before` and `rest0`
      are memory and list at the start. */
  ghost predicate Pruning(t: Shape, root: nat, hash: FragmentKey -> nat, latest: nat, limit: nat,
                          before: Nodes, rest0: seq<nat>)
  {
    && Chained(t, root, hash) && Tail(t.mem, t.rest) && InOrder(t.mem, t.rest, latest)
    && |t.rest| <= |rest0| && t.rest == rest0[|rest0| - |t.rest|..]
    && OnlyStaleGone(before, t.mem, limit)
    && root in before && t.mem[root].lruNext == before[root].lruNext
  }

  lemma StartPrune(t: Shape, root: nat, hash: FragmentKey -> nat, latest: nat, limit: nat)
    requires GoodShape(t, root, hash, latest)
    ensures Pruning(t, root, hash, latest, limit, t.mem, t.rest)
    ensures root in t.mem && (|t.rest| > 0 ==> t.mem[root].lruNext == At(t.rest, 0) != NULL)
  {
    if |t.rest| > 0 {
      TailOfPath(t.mem, root, t.rest);
      FrontNode(t, root, hash);
    }
  }

  lemma PruneFront(t: Shape, root: nat, hash: FragmentKey -> nat, latest: nat, limit: nat, before: Nodes,
                   rest0: seq<nat>)
    requires Pruning(t, root, hash, latest, limit, before, rest0)
    ensures At(t.rest, 0) != NULL <==> |t.rest| > 0
    ensures |t.rest| > 0 ==> t.rest[0] in t.mem
  {
    FrontNode(t, root, hash);
  }

  lemma PruneStep(t: Shape, root: nat, hash: FragmentKey -> nat, latest: nat, limit: nat, before: Nodes,
                  rest0: seq<nat>)
    returns (j: nat)
    requires Pruning(t, root, hash, latest, limit, before, rest0) && |t.rest| > 0
    requires t.rest[0] in t.mem && t.mem[t.rest[0]].data.deadline < limit
    ensures var n := t.mem[t.rest[0]];
            && (n.prev != NULL ==> n.prev in t.mem) && (n.next != NULL ==> n.next in t.mem)
            && n.bucket < |t.chains| == |t.buckets| && j < |t.chains[n.bucket]|
            && n.lruNext == At(t.rest, 1)
    ensures Pruning(FrontFreed(t, j), root, hash, latest, limit, before, rest0)
  {
    hide InOrder, Tail, InPlace, SameNodes, Chains;
    j := FreeFront(t, root, hash, latest);
    UnchainKeeps(t.mem, t.rest[0]);
  }

  /** The end of a prune that leaves nodes. */
  lemma PruneRehangs(t: Shape, root: nat, hash: FragmentKey -> nat, latest: nat, limit: nat, before: Nodes,
                     rest0: seq<nat>)
    requires Pruning(t, root, hash, latest, limit, before, rest0) && |t.rest| > 0
    requires t.rest[0] in t.mem && t.mem[t.rest[0]].data.deadline >= limit
    ensures root in t.mem
    ensures var mem' := SetLruNext(SetLruPrev(t.mem, t.rest[0], root), root, t.rest[0]);
            && GoodShape(t.(mem := mem'), root, hash, latest)
            && OnlyStaleGone(before, mem', limit)
            && forall q :: q in mem' && q != root ==> mem'[q].data.deadline >= limit
    ensures |rest0| > 0 && t.rest[|t.rest| - 1] == rest0[|rest0| - 1]
  {
    hide InOrder, Tail, InPlace, SameNodes, Chains, Hung;
    Rehang(t, root, hash, latest);
    StopIsExact(t, root, hash, latest, limit);
  }

  /** The end of a prune that empties the list. */
  lemma PruneEmpties(t: Shape, root: nat, hash: FragmentKey -> nat, latest: nat, limit: nat, before: Nodes,
                     rest0: seq<nat>)
    requires Pruning(t, root, hash, latest, limit, before, rest0) && t.rest == []
    ensures GoodShape(t, root, hash, latest)
    ensures OnlyStaleGone(before, t.mem, limit) && root in t.mem && root in before
    ensures t.mem[root].lruNext == before[root].lruNext
    ensures forall q :: q in t.mem && q != root ==> t.mem[q].data.deadline >= limit
  {
    StopIsExact(t, root, hash, latest, limit);
  }

  lemma FrontNode(t: Shape, root: nat, hash: FragmentKey -> nat)
    requires Chained(t, root, hash) && Tail(t.mem, t.rest)
    ensures At(t.rest, 0) != NULL <==> |t.rest| > 0
    ensures |t.rest| > 0 ==> t.rest[0] in t.mem && t.rest[0] != root
  {
    assert |t.rest| > 0 ==> TailAt(t.mem, t.rest, 0) && t.rest[0] in t.rest;
  }

  lemma Rehang(t: Shape, root: nat, hash: FragmentKey -> nat, latest: nat)
    requires Chained(t, root, hash) && Tail(t.mem, t.rest) && InOrder(t.mem, t.rest, latest) && |t.rest| > 0
    ensures t.rest[0] in t.mem && root in t.mem
    ensures GoodShape(t.(mem := SetLruNext(SetLruPrev(t.mem, t.rest[0], root), root, t.rest[0])), root, hash, latest)
  {
    PathOfTail(t.mem, root, t.rest);
    var mem' := SetLruNext(SetLruPrev(t.mem, t.rest[0], root), root, t.rest[0]);
    hide SameNodes, Chains, LruPath, Tail, InOrder, InPlace;
    TailOfPath(mem', root, t.rest);
    RehungKeeps(t, mem', root, hash, latest);
    assert SameNodes(mem', [root] + t.rest, t.chains);
  }

  lemma RehungKeeps(t: Shape, mem': Nodes, root: nat, hash: FragmentKey -> nat, latest: nat)
    requires Chained(t, root, hash) && InOrder(t.mem, t.rest, latest)
    requires mem'.Keys == t.mem.Keys
    requires forall q :: q in t.mem ==>
               && mem'[q].data == t.mem[q].data && mem'[q].bucket == t.mem[q].bucket
               && mem'[q].next == t.mem[q].next && mem'[q].prev == t.mem[q].prev
    ensures Chained(t.(mem := mem'), root, hash) && InOrder(mem', t.rest, latest)
  {
    ChainsFrame(t.mem, mem', t.buckets, t.chains);
    RehungNodes(t.mem, mem', [root] + t.rest, t.chains);
  }

  lemma RehungNodes(mem: Nodes, mem': Nodes, path: seq<nat>, chains: seq<seq<nat>>)
    requires |path| > 0 && SameNodes(mem, path, chains)
    requires mem'.Keys == mem.Keys && forall q :: q in mem ==> mem'[q].bucket == mem[q].bucket
    ensures SameNodes(mem', path, chains)
  {
  }

  // ----- searching a chain

  ghost predicate Candidate(t: Shape, root: nat, b: nat, now: nat, p: nat) {
    p in t.mem && p in t.rest && p != root && t.mem[p].bucket == b && t.mem[p].data.deadline <= now
  }

  /** No stale node among the first `i` nodes of the chain. */
  ghost predicate NoStale(t: Shape, b: nat, now: nat, i: nat) {
    b < |t.chains| && i <= |t.chains[b]| &&
    forall m :: 0 <= m < i ==> t.chains[b][m] in t.mem && t.mem[t.chains[b][m]].data.deadline >= now
  }

  /** The node to be reused: the one with the key, or the first stale one. */
  ghost predicate Proposed(t: Shape, b: nat, key: FragmentKey, now: nat, p: nat) {
    p in t.mem && (t.mem[p].data.key == key || FirstStale(t, b, now, p))
  }

  ghost predicate FirstStale(t: Shape, b: nat, now: nat, p: nat) {
    && p in t.mem && t.mem[p].data.deadline < now
    && exists i: nat :: NoStale(t, b, now, i) && i < |t.chains[b]| && t.chains[b][i] == p
  }

  /** Some node with the key is not past its deadline. */
  ghost predicate Alive(mem: Nodes, root: nat, key: FragmentKey, now: nat) {
    exists p :: p in mem && p != root && mem[p].data.key == key && mem[p].data.deadline > now
  }

  /** A live fragment with the key was found; or none is in the table, except
      perhaps the dead node proposed for reuse. */
  ghost predicate SearchResult(t: Shape, root: nat, b: nat, key: FragmentKey, now: nat,
                               known: bool, candidate: nat, lastSeen: nat)
  {
    if known then Alive(t.mem, root, key, now)
    else
      && b < |t.chains|
      && (candidate != NULL ==> Candidate(t, root, b, now, candidate) && Proposed(t, b, key, now, candidate))
      && (candidate == NULL ==>
            lastSeen == At(t.chains[b], |t.chains[b]| - 1) && NoStale(t, b, now, |t.chains[b]|))
      && forall p :: p in t.mem && p != root && t.mem[p].data.key == key ==> candidate != NULL && p == candidate
  }

  lemma HasChains(t: Shape, root: nat, hash: FragmentKey -> nat)
    requires Chained(t, root, hash)
    ensures |t.chains| == |t.buckets| > 0 && Chains(t.mem, t.buckets, t.chains)
  {
  }

  lemma InChain(t: Shape, root: nat, hash: FragmentKey -> nat, b: nat, i: nat)
    requires Chained(t, root, hash) && b < |t.chains| && i < |t.chains[b]|
    ensures var p := t.chains[b][i];
            && p in t.mem && p in t.rest && p != root && t.mem[p].bucket == b
            && t.mem[p].next == At(t.chains[b], i + 1)
  {
    assert Chain(t.mem, t.buckets[b], t.chains[b], b);
    assert ChainAt(t.mem, t.chains[b], b, i);
    assert t.chains[b][i] in t.chains[b];
    assert t.chains[b][i] in [root] + t.rest;
  }

  lemma AbsentFromChain(t: Shape, root: nat, hash: FragmentKey -> nat, key: FragmentKey)
    requires Chained(t, root, hash) && |t.chains| == |t.buckets| > 0
    requires var c := t.chains[hash(key) % |t.buckets|];
             forall m :: 0 <= m < |c| ==> c[m] in t.mem && t.mem[c[m]].data.key != key
    ensures forall p :: p in t.mem && p != root ==> t.mem[p].data.key != key
  {
    forall p | p in t.mem && p != root ensures t.mem[p].data.key != key {
      assert p in t.chains[hash(t.mem[p].data.key) % |t.buckets|];
    }
  }

  lemma GoodIsChained(t: Shape, root: nat, hash: FragmentKey -> nat, latest: nat)
    requires GoodShape(t, root, hash, latest)
    ensures Chained(t, root, hash)
  {
  }

  lemma NoNodes(t: Shape, root: nat, hash: FragmentKey -> nat, latest: nat)
    requires GoodShape(t, root, hash, latest)
    ensures t.rest == [] <==> forall q :: q in t.mem ==> q == root
  {
    SentinelPoints(t, root, hash, latest);
    assert t.rest == [] ==> [root] + t.rest == [root];
  }

  lemma SentinelPoints(t: Shape, root: nat, hash: FragmentKey -> nat, latest: nat)
    requires GoodShape(t, root, hash, latest)
    ensures root in t.mem
    ensures t.rest != [] ==>
              t.mem[root].lruNext == t.rest[0] && t.rest[0] in t.mem && t.rest[0] != root && t.rest[0] != NULL
  {
    if t.rest != [] {
      TailOfPath(t.mem, root, t.rest);
      FrontNode(t, root, hash);
    }
  }

  /** All nodes are past a limit. */
  ghost predicate AllStale(mem: Nodes, root: nat, limit: nat) {
    forall q :: q in mem && q != root ==> mem[q].data.deadline < limit
  }

  /** A prune empties the list exactly when all its nodes are stale. */
  lemma EmptiedExactly(before: Nodes, t: Shape, root: nat, hash: FragmentKey -> nat, latest: nat, limit: nat)
    requires GoodShape(t, root, hash, latest) && OnlyStaleGone(before, t.mem, limit)
    requires forall q :: q in t.mem && q != root ==> t.mem[q].data.deadline >= limit
    ensures t.rest == [] <==> AllStale(before, root, limit)
  {
    NoNodes(t, root, hash, latest);
    SentinelPoints(t, root, hash, latest);
  }

  /** When nodes have run out: a prune, at most once a minute. It leaves the
      sentinel dangling exactly when all nodes are stale. */
  ghost predicate EmergencyRule(now: nat, root: nat, last: nat, last': nat, before: Nodes, after: Nodes,
                                dangling: bool) {
    if now > last + 60 then
      && last' == now && OnlyStaleGone(before, after, now)
      && (forall q :: q in after && q != root ==> after[q].data.deadline >= now)
      && (dangling <==> AllStale(before, root, now) && exists q :: q in before && q != root)
    else last' == last && after == before
  }

  lemma FoundOrDead(t: Shape, root: nat, b: nat, key: FragmentKey, now: nat, known: bool, candidate: nat, lastSeen: nat)
    requires SearchResult(t, root, b, key, now, known, candidate, lastSeen)
    ensures known <==> Alive(t.mem, root, key, now)
  {
  }

  lemma ReusesCandidate(t: Shape, root: nat, b: nat, key: FragmentKey, now: nat, candidate: nat, lastSeen: nat)
    requires SearchResult(t, root, b, key, now, false, candidate, lastSeen) && candidate != NULL
    ensures Candidate(t, root, b, now, candidate)
    ensures forall p :: p in t.mem && p != root && t.mem[p].data.key == key ==> p == candidate
  {
  }

  ghost function KeysIn(mem: Nodes, root: nat): set<FragmentKey> {
    set p | p in mem && p != root :: mem[p].data.key
  }

  ghost function KeysOn(mem: Nodes, s: seq<nat>): set<FragmentKey> {
    set p | p in s && p in mem :: mem[p].data.key
  }

  lemma {:induction false} KeysOfDistinct(mem: Nodes, s: seq<nat>)
    requires forall i :: 0 <= i < |s| ==> s[i] in mem
    requires forall i, j :: 0 <= i < j < |s| ==> mem[s[i]].data.key != mem[s[j]].data.key
    ensures |KeysOn(mem, s)| == |s|
  {
    if s == [] {
      assert KeysOn(mem, s) == {};
    } else {
      var n := |s| - 1;
      KeysOfDistinct(mem, s[..n]);
      assert s == s[..n] + [s[n]];
      assert KeysOn(mem, s) == KeysOn(mem, s[..n]) + {mem[s[n]].data.key};
      assert mem[s[n]].data.key !in KeysOn(mem, s[..n]);
    }
  }

  /** Each node besides the sentinel has a key of its own. */
  lemma KeyPerNode(t: Shape, root: nat, hash: FragmentKey -> nat, latest: nat)
    requires GoodShape(t, root, hash, latest)
    ensures |KeysIn(t.mem, root)| == |t.rest|
  {
    hide Chains, Hung;
    assert forall p :: p in t.mem <==> p == root || p in t.rest;
    assert KeysIn(t.mem, root) == KeysOn(t.mem, t.rest);
    KeysOfDistinct(t.mem, t.rest);
  }

  /** In an empty list nothing is alive. */
  lemma NoneAlive(t: Shape, root: nat, hash: FragmentKey -> nat, latest: nat, key: FragmentKey, now: nat)
    requires GoodShape(t, root, hash, latest)
    ensures t.rest == [] ==> !Alive(t.mem, root, key, now)
  {
    NoNodes(t, root, hash, latest);
  }

  lemma OnlyOneWithKey(t: Shape, root: nat, hash: FragmentKey -> nat, p: nat)
    requires Chained(t, root, hash) && p in t.mem && p != root
    ensures forall q :: q in t.mem && q != root && t.mem[q].data.key == t.mem[p].data.key ==> q == p
  {
  }

  /** A new or reused node for `key` at the end of the list; nothing else
      changes, and a reused node was past its deadline. */
  ghost predicate Entered(before: Nodes, now: Nodes, last: nat, key: FragmentKey, time: nat) {
    && last in now && now[last].data == Fragment(key, time + 60)
    && now.Keys == before.Keys + {last}
    && (forall q :: q in now && q != last ==> now[q].data == before[q].data)
    && (last in before ==> before[last].data.deadline <= time)
  }

  lemma AddedIsEntered(t: Shape, root: nat, p: nat, b: nat, key: FragmentKey, time: nat)
    requires p !in t.mem && root in t.mem && b < |t.chains| == |t.buckets|
    requires |t.rest| > 0 ==> t.rest[|t.rest| - 1] in t.mem
    requires At(t.chains[b], |t.chains[b]| - 1) != NULL ==> At(t.chains[b], |t.chains[b]| - 1) in t.mem
    ensures Entered(t.mem, ShapeWith(t, root, p, b, Fragment(key, time + IPF_TIMEOUT)).mem, p, key, time)
  {
    hide Added;
    var tail, last := At(t.chains[b], |t.chains[b]| - 1), if |t.rest| > 0 then t.rest[|t.rest| - 1] else root;
    AddedKeeps(t.mem, tail, last, p, b, Fragment(key, time + IPF_TIMEOUT));
  }

  lemma ReusedIsEntered(t: Shape, root: nat, p: nat, m: nat, key: FragmentKey, time: nat)
    requires m < |t.rest| && p in t.mem && t.rest[|t.rest| - 1] in t.mem && t.mem[p].data.deadline <= time
    requires t.mem[p].lruNext != NULL ==> t.mem[p].lruPrev in t.mem && t.mem[p].lruNext in t.mem
    ensures Entered(t.mem, ShapeReused(t, root, p, m, Fragment(key, time + IPF_TIMEOUT)).mem, p, key, time)
  {
    hide MovedToEnd;
    if t.mem[p].lruNext != NULL {
      MovedKeeps(t.mem, t.rest[|t.rest| - 1], p);
    }
  }

  lemma LaterLatest(t: Shape, root: nat, hash: FragmentKey -> nat, latest: nat, later: nat)
    requires GoodShape(t, root, hash, latest) && latest <= later
    ensures GoodShape(t, root, hash, later)
  {
    hide LruPath, Chains, SameNodes, InPlace, Tail;
  }

  class Fragments {
    const hash: FragmentKey -> nat
    var mem: Nodes
    var buckets: seq<nat>
    const root: nat
    var last: nat
    var totalNodes: nat
    var pruneDeadline: nat
    var emergencyPrune: nat

    ghost const capacity: nat
    ghost var rest: seq<nat>
    ghost var chains: seq<seq<nat>>
    ghost var clock: nat // the time of the latest call

    ghost function Now(): Shape
      reads this
    {
      Shape(mem, buckets, rest, chains)
    }

    ghost predicate Valid()
      reads this
    {
      && GoodShape(Now(), root, hash, clock + IPF_TIMEOUT)
      && last == (if |rest| > 0 then rest[|rest| - 1] else root)
      && totalNodes + |rest| == capacity
      && (capacity == 0 ==> mem[root].lruNext == NULL)
      && mem[root].lruNext != root
      && pruneDeadline >= PRUNE_INTERVAL
    }

    /** The list is empty but the sentinel still points to a freed node. */
    ghost predicate Dangling()
      reads this
      requires Valid()
    {
      rest == [] && mem[root].lruNext != NULL
    }

    /** Dangling is what it says: following the sentinel's pointer would read
        freed memory. */
    lemma DanglingReadsFreed()
      requires Valid()
      ensures Dangling() <==> mem[root].lruNext != NULL && mem[root].lruNext !in mem
    {
      NoNodes(Now(), root, hash, clock + IPF_TIMEOUT);
      SentinelPoints(Now(), root, hash, clock + IPF_TIMEOUT);
    }

    constructor (hash: FragmentKey -> nat, nodes: nat, now: nat)
      ensures Valid() && !Dangling() && rest == [] && capacity == totalNodes == nodes && clock == 0
      ensures pruneDeadline == now + 7200 && emergencyPrune == 0
      ensures this.hash == hash
    {
      this.hash := hash;
      root, last := 1, 1;
      mem := map[1 := Node(Fragment(FragmentKey(0, 0, 0, 0), 0), 0, NULL, NULL, NULL, NULL)];
      buckets := seq(IPFT_HASHSZ, _ => NULL);
      totalNodes, capacity := nodes, nodes;
      pruneDeadline, emergencyPrune := now + PRUNE_INTERVAL, 0;
      rest, chains, clock := [], seq(IPFT_HASHSZ, _ => []), 0;
      new;
      forall b | 0 <= b < |chains| ensures Chain(mem, buckets[b], chains[b], b) {
      }
    }

    /** Takes a node out of its chain and frees it. */
    method FreeNode(fp: nat)
      requires fp in mem && mem[fp].bucket < |buckets|
      requires (mem[fp].prev != NULL ==> mem[fp].prev in mem) && (mem[fp].next != NULL ==> mem[fp].next in mem)
      modifies this`mem, this`buckets, this`totalNodes
      ensures mem == Unchain(old(mem), fp) - {fp} && buckets == HeadsWithout(old(mem), old(buckets), fp)
      ensures totalNodes == old(totalNodes) + 1
    {
      mem, buckets := UnlinkFromChain(mem, buckets, fp);
      mem := mem - {fp};
      totalNodes := totalNodes + 1;
    }

    /** The loop of a prune: frees nodes from the front while they are stale. */
    method FreeStale(deadline: nat, ghost latest: nat, ghost before: Nodes, ghost rest0: seq<nat>) returns (fp: nat)
      requires Pruning(Now(), root, hash, latest, deadline, before, rest0)
      requires root in mem && (if |rest| > 0 then mem[root].lruNext == At(rest, 0) else mem[root].lruNext == NULL)
      requires totalNodes + |rest| == capacity
      modifies this`mem, this`buckets, this`totalNodes, this`rest, this`chains
      ensures Pruning(Now(), root, hash, latest, deadline, before, rest0)
      ensures totalNodes + |rest| == capacity && fp == At(rest, 0)
      ensures |rest| > 0 ==> fp in mem && fp != NULL && mem[fp].data.deadline >= deadline
    {
      hide Pruning;
      fp := mem[root].lruNext;
      while fp != NULL
        invariant Pruning(Now(), root, hash, latest, deadline, before, rest0)
        invariant fp == At(rest, 0)
        invariant totalNodes + |rest| == capacity
        decreases |rest|
      {
        ghost var t := Now();
        PruneFront(t, root, hash, latest, deadline, before, rest0);
        if deadline > mem[fp].data.deadline {
          ghost var j := PruneStep(t, root, hash, latest, deadline, before, rest0);
          var temp := mem[fp].lruNext;
          FreeNode(fp);
          rest, chains := rest[1..], ChainsWithout(t.mem, chains, fp, j);
          assert Now() == FrontFreed(t, j);
          fp := temp;
        } else {
          break;
        }
      }
      PruneFront(Now(), root, hash, latest, deadline, before, rest0);
    }

    /** Frees exactly the nodes whose deadline is before `now - off`. It is
        left dangling exactly when it empties a list that was not empty. */
    method PruneOldFragments(now: nat, off: nat)
      requires Valid() && !Dangling()
      requires now < CLOCK_LIMIT && off < CLOCK_LIMIT
      modifies this`mem, this`buckets, this`last, this`totalNodes, this`rest, this`chains
      ensures Valid()
      ensures OnlyStaleGone(old(mem), mem, PruneLimit(now, off))
      ensures forall q :: q in mem && q != root ==> mem[q].data.deadline >= PruneLimit(now, off)
      ensures rest == [] <==> AllStale(old(mem), root, PruneLimit(now, off))
      ensures Dangling() <==> old(rest) != [] && AllStale(old(mem), root, PruneLimit(now, off))
    {
      hide GoodShape, Pruning, OnlyStaleGone, PruneLimit, AllStale;
      var deadline := PruneLimit(now, off);
      ghost var latest, before, rest0 := clock + IPF_TIMEOUT, mem, rest;
      StartPrune(Now(), root, hash, latest, deadline);
      var fp := FreeStale(deadline, latest, before, rest0);
      if fp != NULL {
        PruneRehangs(Now(), root, hash, latest, deadline, before, rest0);
        mem := SetLruPrev(mem, fp, root);
        mem := SetLruNext(mem, root, fp);
        SentinelPoints(Now(), root, hash, latest);
      } else {
        PruneEmpties(Now(), root, hash, latest, deadline, before, rest0);
        last := root;
      }
      EmptiedExactly(before, Now(), root, hash, latest, deadline);
    }

    /** Walks the chain of a bucket. */
    method Search(bucket: nat, key: FragmentKey, now: nat) returns (known: bool, candidate: nat, lastSeen: nat)
      requires Chained(Now(), root, hash) && |buckets| > 0 && bucket == hash(key) % |buckets|
      ensures SearchResult(Now(), root, bucket, key, now, known, candidate, lastSeen)
    {
      hide Chained;
      known, candidate, lastSeen := false, NULL, NULL;
      ghost var t, i := Now(), 0;
      HasChains(t, root, hash);
      HeadOfChain(mem, buckets, chains, bucket);
      ghost var c := chains[bucket];
      var fp := buckets[bucket];
      while fp != NULL
        invariant 0 <= i <= |c| && fp == At(c, i) && lastSeen == At(c, i - 1)
        invariant forall m :: 0 <= m < i ==> c[m] in mem && mem[c[m]].data.key != key
        invariant candidate != NULL ==>
                    Candidate(t, root, bucket, now, candidate) && Proposed(t, bucket, key, now, candidate)
        invariant candidate == NULL ==> NoStale(t, bucket, now, i)
        decreases |c| - i
      {
        InChain(t, root, hash, bucket, i);
        if mem[fp].data.key == key {
          if mem[fp].data.deadline > now {
            known := true;
            return;
          }
          OnlyOneWithKey(t, root, hash, fp);
          candidate := fp;
          return;
        }
        if mem[fp].data.deadline < now && candidate == NULL {
          candidate := fp;
        }
        lastSeen := fp;
        fp := mem[fp].next;
        i := i + 1;
      }
      EndOfChain(mem, buckets, chains, bucket, i);
      AbsentFromChain(t, root, hash, key);
    }

    /** Links a new node behind the end of its chain and of the list. */
    method Append(newf: nat, lastSeen: nat, bucket: nat, f: Fragment)
      requires newf !in mem && root in mem && last in mem && bucket < |chains| == |buckets|
      requires last == if |rest| > 0 then rest[|rest| - 1] else root
      requires lastSeen == At(chains[bucket], |chains[bucket]| - 1) && (lastSeen != NULL ==> lastSeen in mem)
      modifies this`mem, this`buckets, this`last, this`rest, this`chains
      ensures Now() == ShapeWith(old(Now()), root, newf, bucket, f) && last == newf && rest == old(rest) + [newf]
    {
      hide Added, HeadsWith;
      mem, buckets := LinkNew(mem, buckets, lastSeen, last, newf, bucket, f);
      last := newf;
      rest, chains := rest + [newf], chains[bucket := chains[bucket] + [newf]];
    }

    method Allocate(now: nat, lastSeen: nat, bucket: nat, key: FragmentKey)
      requires Valid() && totalNodes > 0 && now >= clock && bucket == hash(key) % |buckets| && bucket < |chains|
      requires lastSeen == At(chains[bucket], |chains[bucket]| - 1)
      requires forall p :: p in mem && p != root ==> mem[p].data.key != key
      modifies this`mem, this`buckets, this`last, this`totalNodes, this`rest, this`chains, this`clock
      ensures Valid() && rest != [] && last != root && clock == now && totalNodes == old(totalNodes) - 1
      ensures Entered(old(mem), mem, last, key, now)
    {
      hide GoodShape, ShapeWith, Entered;
      ghost var t := Now();
      ghost var bound := UpperBound(mem.Keys);
      assert bound !in mem && bound != NULL;
      var newf :| newf !in mem && newf != NULL;
      var f := Fragment(key, now + IPF_TIMEOUT);
      AddFragment(t, root, hash, clock + IPF_TIMEOUT, newf, bucket, f);
      RootAllocated(t, root, hash, clock + IPF_TIMEOUT);
      AddedIsEntered(t, root, newf, bucket, key, now);
      totalNodes := totalNodes - 1;
      Append(newf, lastSeen, bucket, f);
      clock := now;
      SentinelPoints(Now(), root, hash, now + IPF_TIMEOUT);
    }

    static lemma RootAllocated(t: Shape, root: nat, hash: FragmentKey -> nat, latest: nat)
      requires GoodShape(t, root, hash, latest)
      ensures root in t.mem
    {
    }

    /** Gives a node of the list another key and deadline and the last place. */
    method Renew(fp: nat, f: Fragment, ghost m: nat)
      requires m < |rest| && fp in mem && last == rest[|rest| - 1] && last in mem && rest[m] == fp
      requires mem[fp].lruNext == NULL <==> m == |rest| - 1
      requires mem[fp].lruNext != NULL ==> mem[fp].lruPrev in mem && mem[fp].lruNext in mem
      modifies this`mem, this`last, this`rest
      ensures Now() == ShapeReused(old(Now()), root, fp, m, f) && last == fp
      ensures |rest| == |old(rest)| && rest[|rest| - 1] == fp
    {
      hide MovedToEnd;
      if mem[fp].lruNext != NULL {
        MovedKeeps(mem, last, fp);
        mem := MoveToEnd(mem, last, fp);
        last := fp;
        rest := RemoveAt(rest, m) + [fp];
      }
      mem := mem[fp := mem[fp].(data := f)];
    }

    method Reuse(now: nat, fp: nat, key: FragmentKey)
      requires Valid() && now >= clock && Candidate(Now(), root, hash(key) % |buckets|, now, fp)
      requires forall p :: p in mem && p != root && mem[p].data.key == key ==> p == fp
      modifies this`mem, this`last, this`rest, this`clock
      ensures Valid() && rest != [] && last != root && clock == now
      ensures Entered(old(mem), mem, last, key, now)
    {
      hide GoodShape, Entered, ShapeReused;
      ghost var t := Now();
      ghost var m :| 0 <= m < |rest| && rest[m] == fp;
      var f := Fragment(key, now + IPF_TIMEOUT);
      ReuseFragment(t, root, hash, clock + IPF_TIMEOUT, fp, m, f);
      ReusedIsEntered(t, root, fp, m, key, now);
      Renew(fp, f, m);
      clock := now;
      SentinelPoints(Now(), root, hash, now + IPF_TIMEOUT);
    }

    /** A fragment that is not known is entered at the end of the list, or
        skipped for want of nodes, perhaps after an emergency prune. */
    method CreateFragment(now: nat, candidate: nat, lastSeen: nat, bucket: nat, key: FragmentKey)
      requires Valid() && clock <= now && now + IPF_TIMEOUT < CLOCK_LIMIT && bucket == hash(key) % |buckets|
      requires SearchResult(Now(), root, bucket, key, now, false, candidate, lastSeen)
      modifies this`mem, this`buckets, this`last, this`totalNodes, this`emergencyPrune, this`rest, this`chains,
               this`clock
      ensures Valid() && clock == now
      ensures old(totalNodes) > 0 ==>
                && emergencyPrune == old(emergencyPrune) && rest != [] && last != root
                && Entered(old(mem), mem, last, key, now)
      ensures old(totalNodes) == 0 ==>
                EmergencyRule(now, root, old(emergencyPrune), emergencyPrune, old(mem), mem, Dangling())
    {
      hide GoodShape, Entered, OnlyStaleGone, Candidate, Proposed, NoStale, AllStale;
      GoodIsChained(Now(), root, hash, clock + IPF_TIMEOUT);
      if totalNodes == 0 {
        NoNodes(Now(), root, hash, clock + IPF_TIMEOUT);
        if now > emergencyPrune + EMER_PRUNE_INTERVAL {
          emergencyPrune := now;
          PruneOldFragments(now, 0);
        }
        LaterLatest(Now(), root, hash, clock + IPF_TIMEOUT, now + IPF_TIMEOUT);
        clock := now;
      } else if candidate != NULL {
        ReusesCandidate(Now(), root, bucket, key, now, candidate, lastSeen);
        Reuse(now, candidate, key);
      } else {
        Allocate(now, lastSeen, bucket, key);
      }
    }

    /** A fragment arrives: it is known, or it is not and is created. */
    method FindFragment(now: nat, key: FragmentKey) returns (known: bool)
      requires Valid() && clock <= now && now + IPF_TIMEOUT < CLOCK_LIMIT
      modifies this`mem, this`buckets, this`last, this`totalNodes, this`emergencyPrune, this`rest, this`chains,
               this`clock
      ensures Valid() && clock == now
      ensures known <==> Alive(old(mem), root, key, now)
      ensures known ==> mem == old(mem) && rest == old(rest)
      ensures known || old(totalNodes) > 0 ==> emergencyPrune == old(emergencyPrune)
      ensures !known && old(totalNodes) > 0 ==> rest != [] && last != root && Entered(old(mem), mem, last, key, now)
      ensures !known && old(totalNodes) == 0 ==>
                EmergencyRule(now, root, old(emergencyPrune), emergencyPrune, old(mem), mem, Dangling())
    {
      hide GoodShape, Entered, EmergencyRule, SearchResult;
      GoodIsChained(Now(), root, hash, clock + IPF_TIMEOUT);
      HasChains(Now(), root, hash);
      var bucket := hash(key) % |buckets|;
      var candidate, lastSeen;
      known, candidate, lastSeen := Search(bucket, key, now);
      FoundOrDead(Now(), root, bucket, key, now, known, candidate, lastSeen);
      if known {
        LaterLatest(Now(), root, hash, clock + IPF_TIMEOUT, now + IPF_TIMEOUT);
        clock := now;
      } else {
        CreateFragment(now, candidate, lastSeen, bucket, key);
      }
    }

    /** The handler of a fragment: a periodic prune, then the fragment. It
        follows the sentinel's pointer to a freed node exactly in the case its
        precondition excludes. `skipped` says that nodes had run out, `pruned`
        is the memory after the prune. */
    method Handle(now: nat, key: FragmentKey) returns (known: bool, skipped: bool, ghost pruned: Nodes)
      requires Valid() && clock <= now && now + PRUNE_INTERVAL < CLOCK_LIMIT
      requires now > pruneDeadline ==> !Dangling()
      modifies this
      ensures Valid() && clock == now
      ensures pruneDeadline == if now > old(pruneDeadline) then now + 7200 else old(pruneDeadline)
      ensures now <= old(pruneDeadline) ==> pruned == old(mem)
      ensures now > old(pruneDeadline) ==>
                && OnlyStaleGone(old(mem), pruned, now - 1800)
                && forall q :: q in pruned && q != root ==> pruned[q].data.deadline >= now - 1800
      ensures known <==> Alive(pruned, root, key, now)
      ensures known ==> mem == pruned
      ensures skipped <==> !known && |KeysIn(pruned, root)| >= capacity
      ensures !skipped ==> emergencyPrune == old(emergencyPrune) && !Dangling()
      ensures !known && !skipped ==> last != root && Entered(pruned, mem, last, key, now)
      ensures skipped ==> EmergencyRule(now, root, old(emergencyPrune), emergencyPrune, pruned, mem, Dangling())
    {
      hide GoodShape, Entered, OnlyStaleGone, AllStale, EmergencyRule, Alive, KeysIn;
      if now > pruneDeadline {
        PruneOldFragments(now, PRUNE_OFFSET);
        pruneDeadline := now + PRUNE_INTERVAL;
      }
      pruned := mem;
      KeyPerNode(Now(), root, hash, clock + IPF_TIMEOUT);
      NoneAlive(Now(), root, hash, clock + IPF_TIMEOUT, key, now);
      var noNodes := totalNodes == 0;
      known := FindFragment(now, key);
      skipped := !known && noNodes;
    }
  }

  /** With a single node the handler reaches a state in which the next call
      past the prune deadline would read freed memory: the second fragment
      finds no free node, and the emergency prune frees the only one. No call
      here is late enough for a periodic prune. */
  method EmergencyLeavesDangling(hash: FragmentKey -> nat, a: FragmentKey, b: FragmentKey) returns (t: Fragments)
    requires a != b
    ensures t.Valid() && t.Dangling() && t.clock == 100 && t.pruneDeadline == PRUNE_INTERVAL
  {
    hide GoodShape;
    t := new Fragments(hash, 1, 0);
    NoNodes(t.Now(), t.root, t.hash, IPF_TIMEOUT);
    var known := t.FindFragment(0, a);
    ghost var before := t.mem;
    known := t.FindFragment(100, b);
    NothingLeft(before, t.Now(), t.root, t.hash, 160);
  }

  lemma NothingLeft(before: Nodes, t: Shape, root: nat, hash: FragmentKey -> nat, latest: nat)
    requires GoodShape(t, root, hash, latest)
    requires OnlyStaleGone(before, t.mem, 100) && forall q :: q in t.mem && q != root ==> t.mem[q].data.deadline >= 100
    requires forall q :: q in before && q != root ==> before[q].data.deadline < 100
    ensures t.rest == []
  {
    FrontNode(t, root, hash);
  }
}
