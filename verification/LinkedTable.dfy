/**
 Hash tables whose nodes are on two doubly linked lists at once: the chain of
 their bucket and a list of all nodes in order of use. The memory the nodes
 live in is explicit: a pointer can be followed only while its node is
 allocated. Both the flow table and the fragment table are built this way.
 */
module LinkedTable {

  const NULL: nat := 0

  datatype Node<T> = Node(data: T, bucket: nat, lruNext: nat, lruPrev: nat, next: nat, prev: nat)

  type Memory<T> = map<nat, Node<T>>

  function At(s: seq<nat>, i: int): nat {
    if 0 <= i < |s| then s[i] else NULL
  }

  function RemoveAt<X>(s: seq<X>, k: nat): seq<X>
    requires k < |s|
  {
    s[..k] + s[k + 1..]
  }

  ghost predicate Distinct(s: seq<nat>) {
    forall i, j :: 0 <= i < j < |s| ==> s[i] != s[j]
  }

  // ----- the list of all nodes; its first element is the sentinel

  ghost predicate LruAt<T>(mem: Memory<T>, path: seq<nat>, i: nat)
    requires i < |path|
  {
    && path[i] != NULL && path[i] in mem
    && mem[path[i]].lruNext == At(path, i + 1)
    && (i > 0 ==> mem[path[i]].lruPrev == path[i - 1])
  }

  ghost predicate LruPath<T>(mem: Memory<T>, path: seq<nat>) {
    && |path| > 0 && Distinct(path)
    && forall i {:trigger LruAt(mem, path, i)} :: 0 <= i < |path| ==> LruAt(mem, path, i)
  }

  // ----- the chains of the buckets

  ghost predicate ChainAt<T>(mem: Memory<T>, c: seq<nat>, b: nat, i: nat)
    requires i < |c|
  {
    && c[i] != NULL && c[i] in mem
    && mem[c[i]].bucket == b
    && mem[c[i]].next == At(c, i + 1)
    && mem[c[i]].prev == At(c, i - 1)
  }

  ghost predicate Chain<T>(mem: Memory<T>, head: nat, c: seq<nat>, b: nat) {
    && head == At(c, 0) && Distinct(c)
    && forall i {:trigger ChainAt(mem, c, b, i)} :: 0 <= i < |c| ==> ChainAt(mem, c, b, i)
  }

  ghost predicate Chains<T>(mem: Memory<T>, buckets: seq<nat>, chains: seq<seq<nat>>) {
    && |buckets| == |chains|
    && forall b {:trigger Chain(mem, buckets[b], chains[b], b)} :: 0 <= b < |chains| ==>
         Chain(mem, buckets[b], chains[b], b)
  }

  /** Chained nodes are exactly the listed nodes, and nothing else than they
      and the sentinel is allocated. */
  ghost predicate SameNodes<T>(mem: Memory<T>, path: seq<nat>, chains: seq<seq<nat>>)
    requires |path| > 0
  {
    && (forall p :: p in mem ==> p in path)
    && (forall b, p :: 0 <= b < |chains| && p in chains[b] ==> p in path && p != path[0])
    && forall p :: p in mem && p != path[0] ==> mem[p].bucket < |chains| && p in chains[mem[p].bucket]
  }

  /** The whole structure. */
  ghost predicate WellLinked<T>(mem: Memory<T>, buckets: seq<nat>, path: seq<nat>, chains: seq<seq<nat>>) {
    && |path| > 0
    && LruPath(mem, path)
    && Chains(mem, buckets, chains)
    && SameNodes(mem, path, chains)
  }

  // ----- what the lists do not depend on

  lemma LruFrame<T>(mem: Memory<T>, mem': Memory<T>, path: seq<nat>)
    requires LruPath(mem, path)
    requires forall p :: p in path && p in mem ==>
               p in mem' && mem'[p].lruNext == mem[p].lruNext && mem'[p].lruPrev == mem[p].lruPrev
    ensures LruPath(mem', path)
  {
    forall i | 0 <= i < |path| ensures LruAt(mem', path, i) {
      assert LruAt(mem, path, i);
    }
  }

  lemma ChainFrame<T>(mem: Memory<T>, mem': Memory<T>, head: nat, c: seq<nat>, b: nat)
    requires Chain(mem, head, c, b)
    requires forall p :: p in c && p in mem ==>
               p in mem' && mem'[p].next == mem[p].next && mem'[p].prev == mem[p].prev &&
               mem'[p].bucket == mem[p].bucket
    ensures Chain(mem', head, c, b)
  {
    forall i | 0 <= i < |c| ensures ChainAt(mem', c, b, i) {
      assert ChainAt(mem, c, b, i);
    }
  }

  // ----- the list of all nodes: take out, append

  function SetLruNext<T>(mem: Memory<T>, p: nat, q: nat): Memory<T>
    requires p in mem
  {
    mem[p := mem[p].(lruNext := q)]
  }

  function SetLruPrev<T>(mem: Memory<T>, p: nat, q: nat): Memory<T>
    requires p in mem
  {
    mem[p := mem[p].(lruPrev := q)]
  }

  /** Bypassing a node that has a successor. */
  lemma LruBypass<T>(mem: Memory<T>, path: seq<nat>, k: nat)
    requires LruPath(mem, path) && 0 < k < |path| - 1
    ensures path[k - 1] in mem && path[k + 1] in mem
    ensures LruPath(SetLruNext(SetLruPrev(mem, path[k + 1], path[k - 1]), path[k - 1], path[k + 1]), RemoveAt(path, k))
  {
    assert LruAt(mem, path, k - 1) && LruAt(mem, path, k + 1);
    var mem' := SetLruNext(SetLruPrev(mem, path[k + 1], path[k - 1]), path[k - 1], path[k + 1]);
    var path' := RemoveAt(path, k);
    forall i | 0 <= i < |path'| ensures LruAt(mem', path', i) {
      var j := if i < k then i else i + 1;
      assert LruAt(mem, path, j) && path'[i] == path[j];
      assert i + 1 < k ==> path'[i + 1] == path[i + 1];
    }
  }

  /** Cutting the last node off. */
  lemma LruCut<T>(mem: Memory<T>, path: seq<nat>)
    requires LruPath(mem, path) && |path| > 1
    ensures path[|path| - 2] in mem
    ensures LruPath(SetLruNext(mem, path[|path| - 2], NULL), path[..|path| - 1])
  {
    var n := |path| - 1;
    assert LruAt(mem, path, n - 1);
    var mem' := SetLruNext(mem, path[n - 1], NULL);
    forall i | 0 <= i < n ensures LruAt(mem', path[..n], i) {
      assert LruAt(mem, path, i);
    }
  }

  /** Linking a node behind the last one. */
  lemma LruAppend<T>(mem: Memory<T>, path: seq<nat>, p: nat)
    requires LruPath(mem, path) && p !in path && p != NULL
    requires p in mem && mem[p].lruNext == NULL
    ensures path[|path| - 1] in mem
    ensures LruPath(SetLruPrev(SetLruNext(mem, path[|path| - 1], p), p, path[|path| - 1]), path + [p])
  {
    var n := |path|;
    assert LruAt(mem, path, n - 1);
    var mem' := SetLruPrev(SetLruNext(mem, path[n - 1], p), p, path[n - 1]);
    var path' := path + [p];
    forall i | 0 <= i <= n ensures LruAt(mem', path', i) {
      if i < n {
        assert LruAt(mem, path, i);
        assert i + 1 < n ==> path'[i + 1] == path[i + 1];
      }
    }
  }

  // ----- a chain: take out, append

  function SetNext<T>(mem: Memory<T>, p: nat, q: nat): Memory<T>
    requires p in mem
  {
    mem[p := mem[p].(next := q)]
  }

  function SetPrev<T>(mem: Memory<T>, p: nat, q: nat): Memory<T>
    requires p in mem
  {
    mem[p := mem[p].(prev := q)]
  }

  lemma ChainNeighbours<T>(mem: Memory<T>, head: nat, c: seq<nat>, b: nat, k: nat)
    requires Chain(mem, head, c, b) && k < |c|
    ensures c[k] in mem && mem[c[k]].bucket == b
    ensures mem[c[k]].prev != NULL <==> k > 0
    ensures mem[c[k]].next != NULL <==> k + 1 < |c|
    ensures k > 0 ==> mem[c[k]].prev == c[k - 1] && c[k - 1] in mem
    ensures k + 1 < |c| ==> mem[c[k]].next == c[k + 1] && c[k + 1] in mem
  {
    assert ChainAt(mem, c, b, k);
    assert k > 0 ==> ChainAt(mem, c, b, k - 1);
    assert k + 1 < |c| ==> ChainAt(mem, c, b, k + 1);
  }

  /** The four cases in which a node is taken out of its chain. */
  function Unchain<T>(mem: Memory<T>, p: nat): Memory<T>
    requires p in mem
    requires mem[p].prev != NULL ==> mem[p].prev in mem
    requires mem[p].next != NULL ==> mem[p].next in mem
  {
    var n := mem[p];
    if n.prev != NULL && n.next != NULL then SetPrev(SetNext(mem, n.prev, n.next), n.next, n.prev)
    else if n.prev != NULL then SetNext(mem, n.prev, NULL)
    else if n.next != NULL then SetPrev(mem, n.next, NULL)
    else mem
  }

  lemma ChainUnlink<T>(mem: Memory<T>, head: nat, c: seq<nat>, b: nat, k: nat)
    requires Chain(mem, head, c, b) && k < |c|
    ensures c[k] in mem
    ensures mem[c[k]].prev != NULL ==> mem[c[k]].prev in mem
    ensures mem[c[k]].next != NULL ==> mem[c[k]].next in mem
    ensures Chain(Unchain(mem, c[k]), if k > 0 then head else mem[c[k]].next, RemoveAt(c, k), b)
  {
    ChainNeighbours(mem, head, c, b, k);
    var mem', c' := Unchain(mem, c[k]), RemoveAt(c, k);
    forall i | 0 <= i < |c'| ensures ChainAt(mem', c', b, i) {
      var j := if i < k then i else i + 1;
      assert ChainAt(mem, c, b, j) && c'[i] == c[j];
      assert i + 1 < k ==> c'[i + 1] == c[i + 1];
      assert i > k ==> c'[i - 1] == c[i];
    }
    GoneOnceRemoved(c, k);
    assert k > 0 ==> c'[0] == c[0];
    assert k == 0 && |c| > 1 ==> c'[0] == c[1];
  }

  lemma ChainAppend<T>(mem: Memory<T>, head: nat, c: seq<nat>, b: nat, p: nat)
    requires Chain(mem, head, c, b) && |c| > 0 && p !in c && p != NULL
    requires p in mem && mem[p].bucket == b && mem[p].next == NULL
    ensures c[|c| - 1] in mem
    ensures Chain(SetPrev(SetNext(mem, c[|c| - 1], p), p, c[|c| - 1]), head, c + [p], b)
  {
    var n := |c|;
    assert ChainAt(mem, c, b, n - 1);
    var mem', c' := SetPrev(SetNext(mem, c[n - 1], p), p, c[n - 1]), c + [p];
    forall i | 0 <= i <= n ensures ChainAt(mem', c', b, i) {
      if i < n {
        assert ChainAt(mem, c, b, i);
        assert i + 1 < n ==> c'[i + 1] == c[i + 1];
      }
    }
  }

  // ----- taking a node out of the table

  /** The pointer updates on the list of all nodes. */
  function Unlru<T>(mem: Memory<T>, p: nat): Memory<T>
    requires p in mem && mem[p].lruPrev in mem
    requires mem[p].lruNext != NULL ==> mem[p].lruNext in mem
  {
    var n := mem[p];
    if n.lruNext != NULL then SetLruNext(SetLruPrev(mem, n.lruNext, n.lruPrev), n.lruPrev, n.lruNext)
    else SetLruNext(mem, n.lruPrev, NULL)
  }

  lemma LruUnlink<T>(mem: Memory<T>, path: seq<nat>, k: nat)
    requires LruPath(mem, path) && 0 < k < |path|
    ensures path[k] in mem && mem[path[k]].lruPrev in mem && mem[path[k]].lruPrev == path[k - 1]
    ensures mem[path[k]].lruNext != NULL ==> mem[path[k]].lruNext in mem
    ensures mem[path[k]].lruNext == At(path, k + 1)
    ensures LruPath(Unlru(mem, path[k]), RemoveAt(path, k))
  {
    assert LruAt(mem, path, k) && LruAt(mem, path, k - 1);
    if k + 1 < |path| {
      assert LruAt(mem, path, k + 1);
      LruBypass(mem, path, k);
    } else {
      LruCut(mem, path);
      assert RemoveAt(path, k) == path[..k];
    }
  }

  /** All chains but one stay as they are; the one loses a node. */
  lemma ChainsUnlink<T>(mem: Memory<T>, buckets: seq<nat>, chains: seq<seq<nat>>, b: nat, j: nat)
    requires Chains(mem, buckets, chains) && b < |chains| && j < |chains[b]|
    ensures var p := chains[b][j];
            && p in mem && mem[p].bucket == b
            && (mem[p].prev != NULL ==> mem[p].prev in mem) && (mem[p].next != NULL ==> mem[p].next in mem)
            && Chains(Unchain(mem, p), if mem[p].prev == NULL then buckets[b := mem[p].next] else buckets,
                      chains[b := RemoveAt(chains[b], j)])
  {
    var p, c := chains[b][j], chains[b];
    assert Chain(mem, buckets[b], c, b);
    ChainNeighbours(mem, buckets[b], c, b, j);
    ChainUnlink(mem, buckets[b], c, b, j);
    var mem', chains' := Unchain(mem, p), chains[b := RemoveAt(c, j)];
    var buckets' := if mem[p].prev == NULL then buckets[b := mem[p].next] else buckets;
    assert j > 0 ==> ChainAt(mem, c, b, j - 1);
    assert j + 1 < |c| ==> ChainAt(mem, c, b, j + 1);
    forall b' | 0 <= b' < |chains'| ensures Chain(mem', buckets'[b'], chains'[b'], b') {
      if b' != b {
        assert Chain(mem, buckets[b'], chains[b'], b');
        InOwnBucket(mem, buckets[b'], chains[b'], b');
        ChainFrame(mem, mem', buckets[b'], chains[b'], b');
      }
    }
  }

  lemma InOwnBucket<T>(mem: Memory<T>, head: nat, c: seq<nat>, b: nat)
    requires Chain(mem, head, c, b)
    ensures forall p :: p in c ==> p in mem && mem[p].bucket == b && p != NULL
  {
    forall p | p in c ensures p in mem && mem[p].bucket == b && p != NULL {
      var i :| 0 <= i < |c| && c[i] == p;
      assert ChainAt(mem, c, b, i);
    }
  }

  lemma ChainsFrame<T>(mem: Memory<T>, mem': Memory<T>, buckets: seq<nat>, chains: seq<seq<nat>>)
    requires Chains(mem, buckets, chains)
    requires forall b, p :: 0 <= b < |chains| && p in chains[b] && p in mem ==>
               p in mem' && mem'[p].next == mem[p].next && mem'[p].prev == mem[p].prev &&
               mem'[p].bucket == mem[p].bucket
    ensures Chains(mem', buckets, chains)
  {
    forall b | 0 <= b < |chains| ensures Chain(mem', buckets[b], chains[b], b) {
      assert Chain(mem, buckets[b], chains[b], b);
      ChainFrame(mem, mem', buckets[b], chains[b], b);
    }
  }

  lemma GoneOnceRemoved(s: seq<nat>, k: nat)
    requires Distinct(s) && k < |s|
    ensures s[k] !in RemoveAt(s, k) && Distinct(RemoveAt(s, k))
    ensures forall p :: p in s && p != s[k] ==> p in RemoveAt(s, k)
    ensures forall p :: p in RemoveAt(s, k) ==> p in s
  {
    forall p | p in s && p != s[k] ensures p in RemoveAt(s, k) {
      var i :| 0 <= i < |s| && s[i] == p;
      assert RemoveAt(s, k)[if i < k then i else i - 1] == p;
    }
  }

  /** A node's position in its chain. */
  lemma FindInChain<T>(mem: Memory<T>, buckets: seq<nat>, path: seq<nat>, chains: seq<seq<nat>>, p: nat)
    returns (j: nat)
    requires WellLinked(mem, buckets, path, chains) && p in mem && p != path[0]
    ensures mem[p].bucket < |chains| && j < |chains[mem[p].bucket]| && chains[mem[p].bucket][j] == p
  {
    j :| 0 <= j < |chains[mem[p].bucket]| && chains[mem[p].bucket][j] == p;
  }

  /** The neighbours of a node are allocated. */
  ghost predicate Removable<T>(mem: Memory<T>, p: nat) {
    && p in mem && mem[p].lruPrev in mem
    && (mem[p].lruNext != NULL ==> mem[p].lruNext in mem)
    && (mem[p].prev != NULL ==> mem[p].prev in mem)
    && (mem[p].next != NULL ==> mem[p].next in mem)
  }

  /** The memory after a node is taken out of both lists and freed. */
  ghost function Removed<T>(mem: Memory<T>, p: nat): Memory<T>
    requires Removable(mem, p)
  {
    Unlru(Unchain(mem, p), p) - {p}
  }

  ghost function HeadsWithout<T>(mem: Memory<T>, buckets: seq<nat>, p: nat): seq<nat>
    requires p in mem && mem[p].bucket < |buckets|
  {
    if mem[p].prev == NULL then buckets[mem[p].bucket := mem[p].next] else buckets
  }

  /** Where a node is: position `k` on the list of all nodes, position `j` in
      the chain of its bucket. */
  ghost predicate Located<T>(mem: Memory<T>, path: seq<nat>, chains: seq<seq<nat>>, p: nat, k: nat, j: nat) {
    && 0 < k < |path| && path[k] == p && p in mem
    && mem[p].bucket < |chains| && j < |chains[mem[p].bucket]| && chains[mem[p].bucket][j] == p
  }

  ghost function ChainsWithout<T>(mem: Memory<T>, chains: seq<seq<nat>>, p: nat, j: nat): seq<seq<nat>>
    requires p in mem && mem[p].bucket < |chains| && j < |chains[mem[p].bucket]|
  {
    chains[mem[p].bucket := RemoveAt(chains[mem[p].bucket], j)]
  }

  lemma LocatedIsRemovable<T>(mem: Memory<T>, buckets: seq<nat>, path: seq<nat>, chains: seq<seq<nat>>,
                              p: nat, k: nat, j: nat)
    requires WellLinked(mem, buckets, path, chains) && Located(mem, path, chains, p, k, j)
    ensures Removable(mem, p)
    ensures mem[p].lruPrev == path[k - 1] && mem[p].lruNext == At(path, k + 1)
  {
    LruUnlink(mem, path, k);
    ChainsUnlink(mem, buckets, chains, mem[p].bucket, j);
  }

  lemma RemovedLru<T>(mem: Memory<T>, path: seq<nat>, p: nat, k: nat)
    requires LruPath(mem, path) && 0 < k < |path| && path[k] == p && Removable(mem, p)
    ensures LruPath(Removed(mem, p), RemoveAt(path, k))
  {
    var mem1 := Unchain(mem, p);
    LruFrame(mem, mem1, path);
    LruUnlink(mem1, path, k);
    GoneOnceRemoved(path, k);
    LruFrame(Unlru(mem1, p), Removed(mem, p), RemoveAt(path, k));
  }

  lemma RemovedChains<T>(mem: Memory<T>, buckets: seq<nat>, path: seq<nat>, chains: seq<seq<nat>>,
                         p: nat, k: nat, j: nat)
    requires Chains(mem, buckets, chains) && Located(mem, path, chains, p, k, j) && Removable(mem, p)
    ensures Chains(Removed(mem, p), HeadsWithout(mem, buckets, p), ChainsWithout(mem, chains, p, j))
  {
    var b := mem[p].bucket;
    ChainsUnlink(mem, buckets, chains, b, j);
    assert Chain(mem, buckets[b], chains[b], b);
    GoneOnceRemoved(chains[b], j);
    NotInOtherChains(mem, buckets, chains, b, p);
    ChainsFrame(Unchain(mem, p), Removed(mem, p), HeadsWithout(mem, buckets, p), ChainsWithout(mem, chains, p, j));
  }

  lemma NotInOtherChains<T>(mem: Memory<T>, buckets: seq<nat>, chains: seq<seq<nat>>, b: nat, p: nat)
    requires Chains(mem, buckets, chains) && b < |chains| && p in mem && mem[p].bucket == b
    ensures forall b' :: 0 <= b' < |chains| && b' != b ==> p !in chains[b']
  {
    forall b' | 0 <= b' < |chains| && b' != b ensures p !in chains[b'] {
      assert Chain(mem, buckets[b'], chains[b'], b');
      InOwnBucket(mem, buckets[b'], chains[b'], b');
    }
  }

  /** What removal leaves of a node that stays. */
  lemma RemovedKeeps<T>(mem: Memory<T>, p: nat)
    requires Removable(mem, p)
    ensures Removed(mem, p).Keys == mem.Keys - {p}
    ensures forall q :: q in Removed(mem, p) ==>
              Removed(mem, p)[q].data == mem[q].data && Removed(mem, p)[q].bucket == mem[q].bucket
  {
  }

  lemma RemovedSameNodes<T>(mem: Memory<T>, buckets: seq<nat>, path: seq<nat>, chains: seq<seq<nat>>,
                            p: nat, k: nat, j: nat)
    requires WellLinked(mem, buckets, path, chains) && Located(mem, path, chains, p, k, j) && Removable(mem, p)
    ensures SameNodes(Removed(mem, p), RemoveAt(path, k), ChainsWithout(mem, chains, p, j))
  {
    var b := mem[p].bucket;
    assert Chain(mem, buckets[b], chains[b], b);
    RemovedKeeps(mem, p);
    GoneOnceRemoved(path, k);
    GoneOnceRemoved(chains[b], j);
    NotInOtherChains(mem, buckets, chains, b, p);
    var mem', path', chains' := Removed(mem, p), RemoveAt(path, k), ChainsWithout(mem, chains, p, j);
    assert path'[0] == path[0];
    forall b', q | 0 <= b' < |chains'| && q in chains'[b'] ensures q in path' && q != path'[0] {
      assert q in chains[b'];
    }
    forall q | q in mem' && q != path'[0] ensures mem'[q].bucket < |chains'| && q in chains'[mem'[q].bucket] {
      assert q in chains[mem[q].bucket];
    }
  }

  /** Taking out a node keeps the structure. */
  lemma RemoveNode<T>(mem: Memory<T>, buckets: seq<nat>, path: seq<nat>, chains: seq<seq<nat>>, p: nat, k: nat, j: nat)
    requires WellLinked(mem, buckets, path, chains) && Located(mem, path, chains, p, k, j)
    ensures Removable(mem, p)
    ensures WellLinked(Removed(mem, p), HeadsWithout(mem, buckets, p), RemoveAt(path, k),
            ChainsWithout(mem, chains, p, j))
  {
    LocatedIsRemovable(mem, buckets, path, chains, p, k, j);
    RemovedLru(mem, path, p, k);
    RemovedChains(mem, buckets, path, chains, p, k, j);
    RemovedSameNodes(mem, buckets, path, chains, p, k, j);
  }

  // ----- putting a node into the table

  /** The memory after a new node `p` is linked behind `tail`, the end of its
      chain (NULL for an empty bucket), and behind `last` on the list. */
  ghost function Added<T>(mem: Memory<T>, tail: nat, last: nat, p: nat, b: nat, data: T): Memory<T>
    requires p !in mem && last in mem && (tail != NULL ==> tail in mem)
  {
    var mem0 := mem[p := Node(data, b, NULL, NULL, NULL, NULL)];
    var mem1 := if tail == NULL then mem0 else SetPrev(SetNext(mem0, tail, p), p, tail);
    SetLruPrev(SetLruNext(mem1, last, p), p, last)
  }

  ghost function HeadsWith(buckets: seq<nat>, tail: nat, p: nat, b: nat): seq<nat>
    requires b < |buckets|
  {
    if tail == NULL then buckets[b := p] else buckets
  }

  lemma ChainTail<T>(mem: Memory<T>, buckets: seq<nat>, chains: seq<seq<nat>>, b: nat)
    requires Chains(mem, buckets, chains) && b < |chains|
    ensures var tail := At(chains[b], |chains[b]| - 1);
            (tail == NULL <==> chains[b] == []) && (tail != NULL ==> tail in mem)
  {
    assert Chain(mem, buckets[b], chains[b], b);
    InOwnBucket(mem, buckets[b], chains[b], b);
    assert chains[b] != [] ==> chains[b][|chains[b]| - 1] in chains[b];
  }

  lemma AddedLru<T>(mem: Memory<T>, path: seq<nat>, tail: nat, p: nat, b: nat, data: T)
    requires LruPath(mem, path) && p !in mem && p != NULL && (tail != NULL ==> tail in mem)
    ensures path[|path| - 1] in mem
    ensures LruPath(Added(mem, tail, path[|path| - 1], p, b, data), path + [p])
  {
    assert LruAt(mem, path, |path| - 1);
    forall i | 0 <= i < |path| ensures path[i] in mem {
      assert LruAt(mem, path, i);
    }
    var mem0 := mem[p := Node(data, b, NULL, NULL, NULL, NULL)];
    var mem1 := if tail == NULL then mem0 else SetPrev(SetNext(mem0, tail, p), p, tail);
    LruFrame(mem, mem1, path);
    LruAppend(mem1, path, p);
  }

  lemma AddedChain<T>(mem: Memory<T>, buckets: seq<nat>, chains: seq<seq<nat>>, last: nat, p: nat, b: nat, data: T)
    requires Chains(mem, buckets, chains) && b < |chains| && last in mem && p !in mem && p != NULL
    requires At(chains[b], |chains[b]| - 1) != NULL ==> At(chains[b], |chains[b]| - 1) in mem
    ensures var tail := At(chains[b], |chains[b]| - 1);
            Chain(Added(mem, tail, last, p, b, data), HeadsWith(buckets, tail, p, b)[b], chains[b] + [p], b)
  {
    var c, tail := chains[b], At(chains[b], |chains[b]| - 1);
    assert Chain(mem, buckets[b], c, b);
    ChainTail(mem, buckets, chains, b);
    InOwnBucket(mem, buckets[b], c, b);
    var mem0 := mem[p := Node(data, b, NULL, NULL, NULL, NULL)];
    ChainFrame(mem, mem0, buckets[b], c, b);
    var mem' := Added(mem, tail, last, p, b, data);
    if c == [] {
      assert ChainAt(mem', c + [p], b, 0);
    } else {
      ChainAppend(mem0, buckets[b], c, b, p);
      ChainFrame(SetPrev(SetNext(mem0, tail, p), p, tail), mem', buckets[b], c + [p], b);
    }
  }

  lemma AddedChains<T>(mem: Memory<T>, buckets: seq<nat>, chains: seq<seq<nat>>, last: nat, p: nat, b: nat, data: T)
    requires Chains(mem, buckets, chains) && b < |chains| && last in mem && p !in mem && p != NULL
    requires At(chains[b], |chains[b]| - 1) != NULL ==> At(chains[b], |chains[b]| - 1) in mem
    ensures var tail := At(chains[b], |chains[b]| - 1);
            Chains(Added(mem, tail, last, p, b, data), HeadsWith(buckets, tail, p, b), chains[b := chains[b] + [p]])
  {
    var tail := At(chains[b], |chains[b]| - 1);
    var mem', buckets', chains' := Added(mem, tail, last, p, b, data), HeadsWith(buckets, tail, p, b),
        chains[b := chains[b] + [p]];
    AddedChain(mem, buckets, chains, last, p, b, data);
    assert Chain(mem, buckets[b], chains[b], b);
    InOwnBucket(mem, buckets[b], chains[b], b);
    forall b' | 0 <= b' < |chains'| ensures Chain(mem', buckets'[b'], chains'[b'], b') {
      if b' != b {
        assert Chain(mem, buckets[b'], chains[b'], b');
        InOwnBucket(mem, buckets[b'], chains[b'], b');
        ChainFrame(mem, mem', buckets[b'], chains[b'], b');
      }
    }
  }

  /** Adding a node keeps the structure. */
  lemma AddNode<T>(mem: Memory<T>, buckets: seq<nat>, path: seq<nat>, chains: seq<seq<nat>>, p: nat, b: nat, data: T)
    requires WellLinked(mem, buckets, path, chains) && b < |chains| && p !in mem && p != NULL
    ensures path[|path| - 1] in mem
    ensures var tail := At(chains[b], |chains[b]| - 1);
            && (tail != NULL ==> tail in mem)
            && WellLinked(Added(mem, tail, path[|path| - 1], p, b, data), HeadsWith(buckets, tail, p, b),
                          path + [p], chains[b := chains[b] + [p]])
  {
    ChainTail(mem, buckets, chains, b);
    var tail := At(chains[b], |chains[b]| - 1);
    AddedLru(mem, path, tail, p, b, data);
    AddedChains(mem, buckets, chains, path[|path| - 1], p, b, data);
    AddedSameNodes(mem, path, chains, tail, p, b, data);
  }

  lemma AddedSameNodes<T>(mem: Memory<T>, path: seq<nat>, chains: seq<seq<nat>>, tail: nat, p: nat, b: nat, data: T)
    requires LruPath(mem, path) && SameNodes(mem, path, chains) && b < |chains| && p !in mem
    requires path[|path| - 1] in mem && (tail != NULL ==> tail in mem)
    ensures SameNodes(Added(mem, tail, path[|path| - 1], p, b, data), path + [p], chains[b := chains[b] + [p]])
  {
    assert LruAt(mem, path, 0);
    var chains' := chains[b := chains[b] + [p]];
    forall b', q | 0 <= b' < |chains'| && q in chains'[b'] ensures q in path + [p] && q != path[0] {
      assert q == p || q in chains[b'];
    }
  }

  // ----- moving a node to the end of the list

  /** The memory after a node that has a successor is moved behind `last`. */
  ghost function MovedToEnd<T>(mem: Memory<T>, last: nat, p: nat): Memory<T>
    requires p in mem && mem[p].lruPrev in mem && mem[p].lruNext in mem && last in mem
  {
    var mem1 := SetLruPrev(SetLruNext(mem, mem[p].lruPrev, mem[p].lruNext), mem[p].lruNext, mem[p].lruPrev);
    SetLruNext(SetLruPrev(SetLruNext(mem1, last, p), p, last), p, NULL)
  }

  lemma LruEnd<T>(mem: Memory<T>, path: seq<nat>)
    requires LruPath(mem, path)
    ensures Distinct(path) && |path| > 0 && path[|path| - 1] in mem
    ensures forall i :: 0 <= i < |path| ==> path[i] != NULL
  {
    assert LruAt(mem, path, |path| - 1);
    forall i | 0 <= i < |path| ensures path[i] != NULL {
      assert LruAt(mem, path, i);
    }
  }

  /** The order of the pointer updates does not matter. */
  lemma MoveReordered<T>(mem: Memory<T>, last: nat, p: nat, before: nat, after: nat)
    requires p in mem && mem[p].lruPrev == before && mem[p].lruNext == after
    requires before in mem && after in mem && last in mem && p != before && p != after && p != last && before != after
    ensures var mem1 := SetLruNext(SetLruNext(SetLruPrev(mem, after, before), before, after), p, NULL);
            SetLruPrev(SetLruNext(mem1, last, p), p, last) == MovedToEnd(mem, last, p)
  {
    var mem1 := SetLruNext(SetLruNext(SetLruPrev(mem, after, before), before, after), p, NULL);
    var moved, mem2 := SetLruPrev(SetLruNext(mem1, last, p), p, last), MovedToEnd(mem, last, p);
    assert moved[p] == mem2[p] && moved[before] == mem2[before] && moved[after] == mem2[after];
    assert moved[last] == mem2[last];
  }

  lemma MovedLru<T>(mem: Memory<T>, path: seq<nat>, p: nat, k: nat)
    requires LruPath(mem, path) && 0 < k < |path| - 1 && path[k] == p
    ensures p in mem && mem[p].lruPrev in mem && mem[p].lruNext in mem && path[|path| - 1] in mem
    ensures LruPath(MovedToEnd(mem, path[|path| - 1], p), RemoveAt(path, k) + [p])
  {
    hide LruPath, MovedToEnd;
    var last, path1 := path[|path| - 1], RemoveAt(path, k);
    LruUnlink(mem, path, k);
    LruEnd(mem, path);
    LruBypass(mem, path, k);
    GoneOnceRemoved(path, k);
    var mem1 := SetLruNext(SetLruPrev(mem, path[k + 1], path[k - 1]), path[k - 1], path[k + 1]);
    var mem2 := SetLruNext(mem1, p, NULL);
    LruFrame(mem1, mem2, path1);
    assert path1[|path1| - 1] == last;
    LruAppend(mem2, path1, p);
    MoveReordered(mem, last, p, path[k - 1], path[k + 1]);
  }

  lemma MovedKeeps<T>(mem: Memory<T>, last: nat, p: nat)
    requires p in mem && mem[p].lruPrev in mem && mem[p].lruNext in mem && last in mem
    ensures MovedToEnd(mem, last, p).Keys == mem.Keys
    ensures forall q :: q in mem ==>
              && MovedToEnd(mem, last, p)[q].data == mem[q].data
              && MovedToEnd(mem, last, p)[q].bucket == mem[q].bucket
              && MovedToEnd(mem, last, p)[q].next == mem[q].next
              && MovedToEnd(mem, last, p)[q].prev == mem[q].prev
  {
  }

  /** Moving a node to the end keeps the structure. */
  lemma MoveNode<T>(mem: Memory<T>, buckets: seq<nat>, path: seq<nat>, chains: seq<seq<nat>>, p: nat, k: nat)
    requires WellLinked(mem, buckets, path, chains) && 0 < k < |path| - 1 && path[k] == p
    ensures p in mem && mem[p].lruPrev in mem && mem[p].lruNext in mem && path[|path| - 1] in mem
    ensures WellLinked(MovedToEnd(mem, path[|path| - 1], p), buckets, RemoveAt(path, k) + [p], chains)
  {
    MovedLru(mem, path, p, k);
    MovedKeeps(mem, path[|path| - 1], p);
    var mem', path' := MovedToEnd(mem, path[|path| - 1], p), RemoveAt(path, k) + [p];
    ChainsFrame(mem, mem', buckets, chains);
    MovedSameNodes(mem, mem', path, path', chains, k);
  }

  lemma MovedSameNodes<T>(mem: Memory<T>, mem': Memory<T>, path: seq<nat>, path': seq<nat>, chains: seq<seq<nat>>,
                          k: nat)
    requires |path| > 0 && SameNodes(mem, path, chains) && Distinct(path) && 0 < k < |path|
    requires path' == RemoveAt(path, k) + [path[k]]
    requires mem'.Keys == mem.Keys && forall p :: p in mem ==> mem'[p].bucket == mem[p].bucket
    ensures SameNodes(mem', path', chains)
  {
    GoneOnceRemoved(path, k);
    assert path'[0] == path[0];
    assert forall q :: q in path ==> q in path';
  }

  /** The structure does not depend on the data in the nodes. */
  lemma DataFrame<T>(mem: Memory<T>, buckets: seq<nat>, path: seq<nat>, chains: seq<seq<nat>>, p: nat, data: T)
    requires WellLinked(mem, buckets, path, chains) && p in mem
    ensures WellLinked(mem[p := mem[p].(data := data)], buckets, path, chains)
  {
    var mem' := mem[p := mem[p].(data := data)];
    LruFrame(mem, mem', path);
    ChainsFrame(mem, mem', buckets, chains);
  }

  /** What adding leaves of the nodes that are there. */
  lemma AddedKeeps<T>(mem: Memory<T>, tail: nat, last: nat, p: nat, b: nat, data: T)
    requires p !in mem && last in mem && (tail != NULL ==> tail in mem)
    ensures var mem' := Added(mem, tail, last, p, b, data);
            && mem'.Keys == mem.Keys + {p} && mem'[p].data == data && mem'[p].bucket == b
            && forall q :: q in mem ==> mem'[q].data == mem[q].data && mem'[q].bucket == mem[q].bucket
  {
  }

  // ----- walking a chain, and finding room for a node

  lemma HeadOfChain<T>(mem: Memory<T>, buckets: seq<nat>, chains: seq<seq<nat>>, b: nat)
    requires Chains(mem, buckets, chains) && b < |buckets|
    ensures |chains| == |buckets| && buckets[b] == At(chains[b], 0)
  {
    assert Chain(mem, buckets[b], chains[b], b);
  }

  lemma EndOfChain<T>(mem: Memory<T>, buckets: seq<nat>, chains: seq<seq<nat>>, b: nat, i: nat)
    requires Chains(mem, buckets, chains) && b < |chains| && i <= |chains[b]| && At(chains[b], i) == NULL
    ensures i == |chains[b]|
  {
    assert Chain(mem, buckets[b], chains[b], b);
    assert i < |chains[b]| ==> ChainAt(mem, chains[b], b, i);
  }

  /** There is always an address that is not in use. */
  lemma {:induction false} UpperBound(s: set<nat>) returns (m: nat)
    ensures m > 0 && forall x :: x in s ==> x < m
    decreases |s|
  {
    if s == {} {
      m := 1;
    } else {
      var x :| x in s;
      var m' := UpperBound(s - {x});
      m := if m' < x + 1 then x + 1 else m';
      assert forall y :: y in s ==> y == x || y in s - {x};
    }
  }

  ghost function Elements(s: seq<nat>): set<nat> {
    set p | p in s
  }

  lemma {:induction false} DistinctSize(s: seq<nat>)
    requires Distinct(s)
    ensures |Elements(s)| == |s|
  {
    if s == [] {
      assert Elements(s) == {};
    } else {
      var n := |s| - 1;
      DistinctSize(s[..n]);
      assert s == s[..n] + [s[n]] && s[n] !in s[..n];
      assert Elements(s) == Elements(s[..n]) + {s[n]};
    }
  }

  // ----- the pointer updates, as the tables make them

  method UnlinkFromChain<T>(mem: Memory<T>, buckets: seq<nat>, p: nat)
    returns (mem': Memory<T>, buckets': seq<nat>)
    requires p in mem && mem[p].bucket < |buckets|
    requires (mem[p].prev != NULL ==> mem[p].prev in mem) && (mem[p].next != NULL ==> mem[p].next in mem)
    ensures mem' == Unchain(mem, p) && buckets' == HeadsWithout(mem, buckets, p)
  {
    var n := mem[p];
    mem', buckets' := mem, buckets;
    if n.prev != NULL && n.next != NULL {
      mem' := SetNext(mem', n.prev, n.next);
      mem' := SetPrev(mem', n.next, n.prev);
    } else if n.prev != NULL {
      mem' := SetNext(mem', n.prev, NULL);
    } else if n.next != NULL {
      buckets' := buckets'[n.bucket := n.next];
      mem' := SetPrev(mem', n.next, NULL);
    } else {
      buckets' := buckets'[n.bucket := NULL];
    }
  }

  method UnlinkFromList<T>(mem: Memory<T>, p: nat) returns (mem': Memory<T>)
    requires p in mem && mem[p].lruPrev in mem && (mem[p].lruNext != NULL ==> mem[p].lruNext in mem)
    ensures mem' == Unlru(mem, p)
  {
    var n := mem[p];
    if n.lruNext != NULL {
      mem' := SetLruPrev(mem, n.lruNext, n.lruPrev);
      mem' := SetLruNext(mem', n.lruPrev, n.lruNext);
    } else {
      mem' := SetLruNext(mem, n.lruPrev, NULL);
    }
  }

  /** A new node behind `tail`, the end of its chain, and `last`, the end of
      the list. */
  method LinkNew<T>(mem: Memory<T>, buckets: seq<nat>, tail: nat, last: nat, p: nat, b: nat, data: T)
    returns (mem': Memory<T>, buckets': seq<nat>)
    requires p !in mem && last in mem && b < |buckets| && (tail != NULL ==> tail in mem)
    ensures mem' == Added(mem, tail, last, p, b, data) && buckets' == HeadsWith(buckets, tail, p, b)
  {
    mem', buckets' := mem[p := Node(data, b, NULL, NULL, NULL, NULL)], buckets;
    if tail != NULL {
      mem' := SetNext(mem', tail, p);
      mem' := SetPrev(mem', p, tail);
    } else {
      buckets' := buckets'[b := p];
    }
    mem' := SetLruNext(mem', last, p);
    mem' := SetLruPrev(mem', p, last);
  }

  method MoveToEnd<T>(mem: Memory<T>, last: nat, p: nat) returns (mem': Memory<T>)
    requires p in mem && mem[p].lruPrev in mem && mem[p].lruNext in mem && last in mem
    ensures mem' == MovedToEnd(mem, last, p)
  {
    var n := mem[p];
    mem' := SetLruNext(mem, n.lruPrev, n.lruNext);
    mem' := SetLruPrev(mem', n.lruNext, n.lruPrev);
    mem' := SetLruNext(mem', last, p);
    mem' := SetLruPrev(mem', p, last);
    mem' := SetLruNext(mem', p, NULL);
  }
}
