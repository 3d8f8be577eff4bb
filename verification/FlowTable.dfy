/**
 The flow table: nodes on bucket chains and on one list of all nodes, a
 budget of nodes, reuse of expired nodes, periodic and emergency pruning.
 Every operation keeps the links well formed and the keys unique, and does
 to the table, seen as a map from keys to flows, what FlowRules.Step allows.
 */
module FlowTable {
  import opened LinkedTable
  import opened FlowRules
  import opened FlowSimulation

  const FLOW_TABLE_PRUNE_INTERVAL: nat := 3600
  const FLOW_TABLE_EMER_PRUNE_INTERVAL: nat := 60

  type Nodes = Memory<Flow>

  /** Where every key lives: nodes other than the sentinel and keys
      correspond one to one. */
  ghost predicate Homed(mem: Nodes, root: nat, home: map<FlowKey, nat>) {
    && (forall k :: k in home ==> home[k] in mem && home[k] != root && mem[home[k]].data.key == k)
    && forall p :: p in mem && p != root ==> mem[p].data.key in home && home[mem[p].data.key] == p
  }

  ghost function ViewOf(mem: Nodes, home: map<FlowKey, nat>): View
    requires forall k :: k in home ==> home[k] in mem
  {
    map k | k in home :: mem[home[k]].data
  }

  /** The linked part of the table with the lists it represents. */
  datatype Shape = Shape(mem: Nodes, buckets: seq<nat>, path: seq<nat>, chains: seq<seq<nat>>, home: map<FlowKey, nat>)

  ghost predicate InPlace(mem: Nodes, root: nat, hash: FlowKey -> nat, size: nat) {
    forall p :: p in mem && p != root ==>
      && MortalFlow(mem[p].data)
      && size > 0 && mem[p].bucket == hash(mem[p].data.key) % size
  }

  ghost predicate GoodShape(t: Shape, root: nat, hash: FlowKey -> nat) {
    && WellLinked(t.mem, t.buckets, t.path, t.chains)
    && t.path[0] == root
    && Homed(t.mem, root, t.home)
    && |t.buckets| > 0 && InPlace(t.mem, root, hash, |t.buckets|)
  }

  ghost function ShapeView(t: Shape): View
    requires forall k :: k in t.home ==> t.home[k] in t.mem
  {
    ViewOf(t.mem, t.home)
  }

  /** The flows that have not expired in both directions. */
  ghost function Live(cfg: Config, now: nat, v: View): View {
    map k | k in v && !Expired(cfg, now, v[k]) :: v[k]
  }

  // ----- homes under the three changes of the table

  lemma HomesWithout(mem: Nodes, mem': Nodes, root: nat, home: map<FlowKey, nat>, p: nat)
    requires Homed(mem, root, home) && p in mem && p != root
    requires mem'.Keys == mem.Keys - {p} && forall q :: q in mem' ==> mem'[q].data == mem[q].data
    ensures Homed(mem', root, home - {mem[p].data.key})
    ensures ViewOf(mem', home - {mem[p].data.key}) == ViewOf(mem, home) - {mem[p].data.key}
  {
  }

  lemma HomesWith(mem: Nodes, mem': Nodes, root: nat, home: map<FlowKey, nat>, p: nat, f: Flow)
    requires Homed(mem, root, home) && p !in mem && p != root && f.key !in home
    requires mem'.Keys == mem.Keys + {p} && mem'[p].data == f
    requires forall q :: q in mem ==> mem'[q].data == mem[q].data
    ensures Homed(mem', root, home[f.key := p])
    ensures ViewOf(mem', home[f.key := p]) == ViewOf(mem, home)[f.key := f]
  {
  }

  /** A node is given another flow: its old key is forgotten. */
  lemma HomesReused(mem: Nodes, mem': Nodes, root: nat, home: map<FlowKey, nat>, p: nat, f: Flow)
    requires Homed(mem, root, home) && p in mem && p != root
    requires f.key == mem[p].data.key || f.key !in home
    requires mem'.Keys == mem.Keys && mem'[p].data == f
    requires forall q :: q in mem && q != p ==> mem'[q].data == mem[q].data
    ensures Homed(mem', root, (home - {mem[p].data.key})[f.key := p])
    ensures ViewOf(mem', (home - {mem[p].data.key})[f.key := p]) ==
            (ViewOf(mem, home) - {mem[p].data.key})[f.key := f]
  {
  }

  // ----- the three changes of the table

  ghost predicate Takeable(t: Shape, p: nat, k: nat, j: nat) {
    && Removable(t.mem, p) && Located(t.mem, t.path, t.chains, p, k, j)
    && |t.buckets| == |t.chains| && t.mem[p].lruNext == At(t.path, k + 1)
  }

  ghost function ShapeWithout(t: Shape, p: nat, k: nat, j: nat): Shape
    requires Takeable(t, p, k, j)
  {
    Shape(Removed(t.mem, p), HeadsWithout(t.mem, t.buckets, p), RemoveAt(t.path, k),
          ChainsWithout(t.mem, t.chains, p, j), t.home - {t.mem[p].data.key})
  }

  /** The table with one flow less. */
  ghost predicate LosesFlow(t: Shape, t': Shape, root: nat, hash: FlowKey -> nat, p: nat)
    requires GoodShape(t, root, hash) && p in t.mem
  {
    && GoodShape(t', root, hash)
    && ShapeView(t') == ShapeView(t) - {t.mem[p].data.key}
    && forall q :: q in t.path && q != p ==> q in t'.mem && q in t.mem && t'.mem[q].data == t.mem[q].data
  }

  lemma RemoveFlow(t: Shape, root: nat, hash: FlowKey -> nat, p: nat, k: nat) returns (j: nat)
    requires GoodShape(t, root, hash) && 0 < k < |t.path| && t.path[k] == p
    ensures Takeable(t, p, k, j)
    ensures LosesFlow(t, ShapeWithout(t, p, k, j), root, hash, p)
  {
    assert LruAt(t.mem, t.path, k);
    j := FindInChain(t.mem, t.buckets, t.path, t.chains, p);
    RemoveNode(t.mem, t.buckets, t.path, t.chains, p, k, j);
    LocatedIsRemovable(t.mem, t.buckets, t.path, t.chains, p, k, j);
    RemovedKeeps(t.mem, p);
    HomesWithout(t.mem, Removed(t.mem, p), root, t.home, p);
    forall q | q in t.path ensures q in t.mem {
      var i :| 0 <= i < |t.path| && t.path[i] == q;
      assert LruAt(t.mem, t.path, i);
    }
  }

  ghost function ShapeWith(t: Shape, p: nat, b: nat, f: Flow): Shape
    requires |t.path| > 0 && t.path[|t.path| - 1] in t.mem && p !in t.mem
    requires b < |t.chains| == |t.buckets|
    requires At(t.chains[b], |t.chains[b]| - 1) != NULL ==> At(t.chains[b], |t.chains[b]| - 1) in t.mem
  {
    var tail := At(t.chains[b], |t.chains[b]| - 1);
    Shape(Added(t.mem, tail, t.path[|t.path| - 1], p, b, f), HeadsWith(t.buckets, tail, p, b),
          t.path + [p], t.chains[b := t.chains[b] + [p]], t.home[f.key := p])
  }

  lemma AddFlow(t: Shape, root: nat, hash: FlowKey -> nat, p: nat, b: nat, f: Flow)
    requires GoodShape(t, root, hash) && p !in t.mem && p != NULL
    requires f.key !in ShapeView(t) && MortalFlow(f) && b == hash(f.key) % |t.buckets|
    ensures |t.path| > 0 && t.path[|t.path| - 1] in t.mem && b < |t.chains| == |t.buckets|
    ensures At(t.chains[b], |t.chains[b]| - 1) != NULL ==> At(t.chains[b], |t.chains[b]| - 1) in t.mem
    ensures GoodShape(ShapeWith(t, p, b, f), root, hash)
    ensures ShapeView(ShapeWith(t, p, b, f)) == ShapeView(t)[f.key := f]
  {
    hide LruPath, Chain, SameNodes, Added;
    OnTheList(t, root, hash, 0);
    AddNode(t.mem, t.buckets, t.path, t.chains, p, b, f);
    var tail := At(t.chains[b], |t.chains[b]| - 1);
    AddedKeeps(t.mem, tail, t.path[|t.path| - 1], p, b, f);
    HomesWith(t.mem, Added(t.mem, tail, t.path[|t.path| - 1], p, b, f), root, t.home, p, f);
  }

  /** The node at position `k` of the list taken over by flow `f`. */
  ghost function ShapeReused(t: Shape, p: nat, k: nat, f: Flow): Shape
    requires k < |t.path| && p in t.mem && t.path[|t.path| - 1] in t.mem
    requires t.mem[p].lruNext != NULL ==> t.mem[p].lruPrev in t.mem && t.mem[p].lruNext in t.mem
  {
    var mem1 := if t.mem[p].lruNext == NULL then t.mem else MovedToEnd(t.mem, t.path[|t.path| - 1], p);
    var path1 := if t.mem[p].lruNext == NULL then t.path else RemoveAt(t.path, k) + [p];
    Shape(mem1[p := mem1[p].(data := f)], t.buckets, path1, t.chains, (t.home - {t.mem[p].data.key})[f.key := p])
  }

  lemma MoveFlow(t: Shape, p: nat, k: nat)
    requires WellLinked(t.mem, t.buckets, t.path, t.chains) && 0 < k < |t.path| && t.path[k] == p
    ensures p in t.mem && t.path[|t.path| - 1] in t.mem
    ensures t.mem[p].lruNext == NULL <==> k == |t.path| - 1
    ensures t.mem[p].lruNext != NULL ==> t.mem[p].lruPrev in t.mem && t.mem[p].lruNext in t.mem
    ensures t.mem[p].lruNext != NULL ==>
              WellLinked(MovedToEnd(t.mem, t.path[|t.path| - 1], p), t.buckets, RemoveAt(t.path, k) + [p], t.chains)
  {
    assert LruAt(t.mem, t.path, k) && LruAt(t.mem, t.path, |t.path| - 1);
    if k < |t.path| - 1 {
      assert LruAt(t.mem, t.path, k + 1);
      MoveNode(t.mem, t.buckets, t.path, t.chains, p, k);
    }
  }

  /** What reuse does to the nodes, apart from their links. */
  lemma ReusedKeeps(t: Shape, p: nat, k: nat, f: Flow)
    requires k < |t.path| && p in t.mem && t.path[|t.path| - 1] in t.mem
    requires t.mem[p].lruNext != NULL ==> t.mem[p].lruPrev in t.mem && t.mem[p].lruNext in t.mem
    ensures var mem' := ShapeReused(t, p, k, f).mem;
            && mem'.Keys == t.mem.Keys && mem'[p].data == f
            && (forall q :: q in t.mem ==> mem'[q].bucket == t.mem[q].bucket)
            && forall q :: q in t.mem && q != p ==> mem'[q].data == t.mem[q].data
  {
    hide MovedToEnd;
    if t.mem[p].lruNext != NULL {
      MovedKeeps(t.mem, t.path[|t.path| - 1], p);
    }
  }

  lemma ReusedLinks(t: Shape, p: nat, k: nat, f: Flow)
    requires WellLinked(t.mem, t.buckets, t.path, t.chains) && 0 < k < |t.path| && t.path[k] == p
    ensures p in t.mem && t.path[|t.path| - 1] in t.mem
    ensures t.mem[p].lruNext != NULL ==> t.mem[p].lruPrev in t.mem && t.mem[p].lruNext in t.mem
    ensures t.mem[p].lruNext == NULL ==> t.path[|t.path| - 1] == p
    ensures var t' := ShapeReused(t, p, k, f);
            WellLinked(t'.mem, t'.buckets, t'.path, t'.chains) && t'.path[0] == t.path[0]
  {
    hide LruPath, Chains, SameNodes, MovedToEnd;
    MoveFlow(t, p, k);
    if t.mem[p].lruNext == NULL {
      DataFrame(t.mem, t.buckets, t.path, t.chains, p, f);
    } else {
      var mem1 := MovedToEnd(t.mem, t.path[|t.path| - 1], p);
      MovedKeeps(t.mem, t.path[|t.path| - 1], p);
      DataFrame(mem1, t.buckets, RemoveAt(t.path, k) + [p], t.chains, p, f);
    }
  }

  lemma ReuseFlow(t: Shape, root: nat, hash: FlowKey -> nat, p: nat, k: nat, f: Flow)
    requires GoodShape(t, root, hash) && 0 < k < |t.path| && t.path[k] == p
    requires p in t.mem && (f.key == t.mem[p].data.key || f.key !in ShapeView(t))
    requires MortalFlow(f) && hash(f.key) % |t.buckets| == t.mem[p].bucket
    ensures t.path[|t.path| - 1] in t.mem
    ensures t.mem[p].lruNext != NULL ==> t.mem[p].lruPrev in t.mem && t.mem[p].lruNext in t.mem
    ensures t.mem[p].lruNext == NULL ==> t.path[|t.path| - 1] == p
    ensures GoodShape(ShapeReused(t, p, k, f), root, hash)
    ensures ShapeView(ShapeReused(t, p, k, f)) == (ShapeView(t) - {t.mem[p].data.key})[f.key := f]
  {
    hide WellLinked, MovedToEnd, Homed, MortalFlow;
    RootApart(t, root, hash, k);
    ReusedLinks(t, p, k, f);
    ReusedKeeps(t, p, k, f);
    HomesReused(t.mem, ShapeReused(t, p, k, f).mem, root, t.home, p, f);
  }

  lemma RootApart(t: Shape, root: nat, hash: FlowKey -> nat, k: nat)
    requires GoodShape(t, root, hash) && 0 < k < |t.path|
    ensures t.path[k] != root
  {
  }

  /** A flow updated in place. */
  ghost function ShapeTouched(t: Shape, p: nat, f: Flow): Shape
    requires p in t.mem
  {
    t.(mem := t.mem[p := t.mem[p].(data := f)])
  }

  lemma TouchFlow(t: Shape, root: nat, hash: FlowKey -> nat, p: nat, f: Flow)
    requires GoodShape(t, root, hash) && p in t.mem && p != root && f.key == t.mem[p].data.key && MortalFlow(f)
    ensures f.key in ShapeView(t) && ShapeView(t)[f.key] == t.mem[p].data
    ensures GoodShape(ShapeTouched(t, p, f), root, hash)
    ensures ShapeView(ShapeTouched(t, p, f)) == ShapeView(t)[f.key := f]
  {
    HomeOf(t.mem, root, t.home, p);
    PlaceTouched(t.mem, root, hash, |t.buckets|, p, f);
    hide WellLinked, Homed, InPlace, MortalFlow;
    DataFrame(t.mem, t.buckets, t.path, t.chains, p, f);
    HomesReused(t.mem, ShapeTouched(t, p, f).mem, root, t.home, p, f);
    assert (t.home - {f.key})[f.key := p] == t.home;
    SameKeyAgain(ShapeView(t), f.key, f);
  }

  lemma SameKeyAgain(v: View, k: FlowKey, f: Flow)
    ensures (v - {k})[k := f] == v[k := f]
  {
  }

  lemma PlaceTouched(mem: Nodes, root: nat, hash: FlowKey -> nat, size: nat, p: nat, f: Flow)
    requires InPlace(mem, root, hash, size) && p in mem && p != root && f.key == mem[p].data.key && MortalFlow(f)
    ensures InPlace(mem[p := mem[p].(data := f)], root, hash, size)
  {
    hide MortalFlow;
  }

  lemma HomeOf(mem: Nodes, root: nat, home: map<FlowKey, nat>, p: nat)
    requires Homed(mem, root, home) && p in mem && p != root
    ensures mem[p].data.key in home && home[mem[p].data.key] == p
  {
  }

  // ----- pruning

  /** No node up to position `i` of the list has expired. */
  ghost predicate AliveUpTo(cfg: Config, now: nat, t: Shape, i: nat) {
    i < |t.path| &&
    forall m :: 0 < m <= i ==> t.path[m] in t.mem && !Expired(cfg, now, t.mem[t.path[m]].data)
  }

  lemma OnTheList(t: Shape, root: nat, hash: FlowKey -> nat, i: nat)
    requires GoodShape(t, root, hash) && i < |t.path|
    ensures t.path[i] in t.mem && t.path[i] != NULL && t.mem[t.path[i]].lruNext == At(t.path, i + 1)
    ensures i > 0 ==>
              var f := t.mem[t.path[i]].data; f.key in ShapeView(t) && ShapeView(t)[f.key] == f
  {
    assert LruAt(t.mem, t.path, i);
  }

  lemma StartOfList(cfg: Config, now: nat, t: Shape, root: nat, hash: FlowKey -> nat)
    requires GoodShape(t, root, hash)
    ensures |t.path| > 0 && t.path[0] == root && root in t.mem && t.mem[root].lruNext == At(t.path, 1)
    ensures AliveUpTo(cfg, now, t, 0) && Forgets(cfg, now, ShapeView(t), ShapeView(t))
  {
    OnTheList(t, root, hash, 0);
  }

  lemma EndOfList(t: Shape, root: nat, hash: FlowKey -> nat, i: nat)
    requires GoodShape(t, root, hash) && At(t.path, i) == NULL
    ensures i >= |t.path|
  {
    assert i < |t.path| ==> LruAt(t.mem, t.path, i);
  }

  lemma NextAlive(cfg: Config, now: nat, t: Shape, i: nat)
    requires AliveUpTo(cfg, now, t, i) && i + 1 < |t.path|
    requires t.path[i + 1] in t.mem && !Expired(cfg, now, t.mem[t.path[i + 1]].data)
    ensures AliveUpTo(cfg, now, t, i + 1)
  {
  }

  lemma StillAlive(cfg: Config, now: nat, v: View, t: Shape, t': Shape, root: nat, hash: FlowKey -> nat, i: nat)
    requires GoodShape(t, root, hash) && AliveUpTo(cfg, now, t, i) && i + 1 < |t.path|
    requires t.path[i + 1] in t.mem && LosesFlow(t, t', root, hash, t.path[i + 1])
    requires t'.path == RemoveAt(t.path, i + 1) && Expired(cfg, now, t.mem[t.path[i + 1]].data)
    requires Forgets(cfg, now, v, ShapeView(t))
    ensures AliveUpTo(cfg, now, t', i)
    ensures Forgets(cfg, now, v, ShapeView(t'))
  {
    OnTheList(t, root, hash, i + 1);
    forall m | 0 < m <= i ensures t'.path[m] in t'.mem && !Expired(cfg, now, t'.mem[t'.path[m]].data) {
      assert t'.path[m] == t.path[m] && t.path[m] in t.path;
    }
  }

  lemma AllAlive(cfg: Config, now: nat, v: View, t: Shape, root: nat, hash: FlowKey -> nat)
    requires GoodShape(t, root, hash) && AliveUpTo(cfg, now, t, |t.path| - 1)
    requires Forgets(cfg, now, v, ShapeView(t))
    ensures ShapeView(t) == Live(cfg, now, v)
  {
    forall k | k in t.home ensures !Expired(cfg, now, t.mem[t.home[k]].data) {
      var m :| 0 <= m < |t.path| && t.path[m] == t.home[k];
    }
  }

  /** The nodes of a list that a prune keeps, in order. */
  ghost function Survivors(cfg: Config, now: nat, mem: Nodes, root: nat, s: seq<nat>): seq<nat> {
    if s == [] then []
    else
      var before, p := Survivors(cfg, now, mem, root, s[..|s| - 1]), s[|s| - 1];
      if p == root || (p in mem && !Expired(cfg, now, mem[p].data)) then before + [p] else before
  }

  /** A prune that began with `t0` has gone through the first `j` nodes and
      kept the first `i + 1` nodes of `t`. */
  ghost predicate Swept(cfg: Config, now: nat, root: nat, t0: Shape, t: Shape, i: nat, j: nat) {
    && j <= |t0.path| && i < |t.path|
    && t.path == Survivors(cfg, now, t0.mem, root, t0.path[..j]) + t0.path[j..]
    && |Survivors(cfg, now, t0.mem, root, t0.path[..j])| == i + 1
    && forall p :: p in t.path ==> p in t.mem && p in t0.mem && t.mem[p].data == t0.mem[p].data
  }

  lemma RootSurvives(cfg: Config, now: nat, mem: Nodes, root: nat)
    ensures Survivors(cfg, now, mem, root, [root]) == [root]
  {
    assert [root][..0] == [];
  }

  lemma StartSweep(cfg: Config, now: nat, root: nat, hash: FlowKey -> nat, t: Shape)
    requires GoodShape(t, root, hash)
    ensures Swept(cfg, now, root, t, t, 0, 1)
  {
    AllOnTheList(t, root, hash);
    hide Survivors, GoodShape;
    RootSurvives(cfg, now, t.mem, root);
    assert t.path[..1] == [root] && t.path == [root] + t.path[1..];
  }

  lemma AllOnTheList(t: Shape, root: nat, hash: FlowKey -> nat)
    requires GoodShape(t, root, hash)
    ensures |t.path| > 0 && t.path[0] == root && forall p :: p in t.path ==> p in t.mem
  {
    forall p | p in t.path ensures p in t.mem {
      var i :| 0 <= i < |t.path| && t.path[i] == p;
      assert LruAt(t.mem, t.path, i);
    }
  }

  lemma SweepNext(cfg: Config, now: nat, root: nat, t0: Shape, t: Shape, i: nat, j: nat)
    requires Swept(cfg, now, root, t0, t, i, j) && i + 1 < |t.path|
    ensures j < |t0.path| && t0.path[j] == t.path[i + 1] && t.path[i + 1] in t0.mem && t.path[i + 1] in t.mem
    ensures t.mem[t.path[i + 1]].data == t0.mem[t.path[i + 1]].data
    ensures t0.path[..j + 1][..j] == t0.path[..j] && t0.path[j..] == [t0.path[j]] + t0.path[j + 1..]
  {
    assert t.path[i + 1] == t0.path[j..][0];
    assert t.path[i + 1] in t.path;
  }

  lemma SweepKept(cfg: Config, now: nat, root: nat, t0: Shape, t: Shape, i: nat, j: nat)
    requires Swept(cfg, now, root, t0, t, i, j) && i + 1 < |t.path| && t.path[i + 1] in t.mem
    requires !Expired(cfg, now, t.mem[t.path[i + 1]].data)
    ensures Swept(cfg, now, root, t0, t, i + 1, j + 1)
  {
    hide Expired;
    SweepNext(cfg, now, root, t0, t, i, j);
  }

  lemma SweepRemoved(cfg: Config, now: nat, root: nat, hash: FlowKey -> nat, t0: Shape, t: Shape, t': Shape, i: nat,
                     j: nat)
    requires GoodShape(t, root, hash) && Swept(cfg, now, root, t0, t, i, j) && i + 1 < |t.path|
    requires t.path[i + 1] in t.mem && LosesFlow(t, t', root, hash, t.path[i + 1])
    requires t'.path == RemoveAt(t.path, i + 1) && Expired(cfg, now, t.mem[t.path[i + 1]].data)
    ensures Swept(cfg, now, root, t0, t', i, j + 1)
  {
    hide Expired, Chains, SameNodes, Homed, InPlace;
    SweepNext(cfg, now, root, t0, t, i, j);
    RootApart(t, root, hash, i + 1);
    GoneOnceRemoved(t.path, i + 1);
    var kept := Survivors(cfg, now, t0.mem, root, t0.path[..j]);
    assert Survivors(cfg, now, t0.mem, root, t0.path[..j + 1]) == kept;
    assert t'.path == kept + t0.path[j + 1..];
  }

  lemma SweepDone(cfg: Config, now: nat, root: nat, t0: Shape, t: Shape, j: nat)
    requires 0 < |t.path| && Swept(cfg, now, root, t0, t, |t.path| - 1, j)
    ensures t.path == Survivors(cfg, now, t0.mem, root, t0.path)
  {
    assert t0.path[j..] == [];
    assert t0.path[..j] == t0.path;
  }

  // ----- searching a chain

  ghost predicate Candidate(cfg: Config, now: nat, t: Shape, root: nat, b: nat, p: nat) {
    && p in t.mem && p in t.path && p != root && t.mem[p].bucket == b
    && Expired(cfg, now, t.mem[p].data)
  }

  /** No expired node among the first `i` nodes of the chain. */
  ghost predicate NoCandidate(cfg: Config, now: nat, t: Shape, b: nat, i: nat) {
    b < |t.chains| && i <= |t.chains[b]| &&
    forall m :: 0 <= m < i ==> t.chains[b][m] in t.mem && !Expired(cfg, now, t.mem[t.chains[b][m]].data)
  }

  /** The first expired node of the chain. */
  ghost predicate FirstCandidate(cfg: Config, now: nat, t: Shape, b: nat, p: nat) {
    exists i: nat :: NoCandidate(cfg, now, t, b, i) && i < |t.chains[b]| && t.chains[b][i] == p
  }

  ghost predicate SearchResult(cfg: Config, now: nat, t: Shape, root: nat, b: nat, key: FlowKey,
                               found: nat, candidate: nat, lastSeen: nat)
  {
    if found != NULL then found in t.mem && found != root && t.mem[found].data.key == key
    else
      && key !in t.home && b < |t.chains|
      && (candidate != NULL ==> Candidate(cfg, now, t, root, b, candidate) && FirstCandidate(cfg, now, t, b, candidate))
      && (candidate == NULL ==> NoCandidate(cfg, now, t, b, |t.chains[b]|))
      && lastSeen == At(t.chains[b], |t.chains[b]| - 1)
  }

  lemma HasChains(t: Shape, root: nat, hash: FlowKey -> nat)
    requires GoodShape(t, root, hash)
    ensures |t.chains| == |t.buckets| > 0 && Chains(t.mem, t.buckets, t.chains)
  {
  }

  lemma InChain(t: Shape, root: nat, hash: FlowKey -> nat, b: nat, i: nat)
    requires GoodShape(t, root, hash) && b < |t.chains| && i < |t.chains[b]|
    ensures var p := t.chains[b][i];
            && p in t.mem && p in t.path && p != root && t.mem[p].bucket == b
            && t.mem[p].next == At(t.chains[b], i + 1)
  {
    assert Chain(t.mem, t.buckets[b], t.chains[b], b);
    assert ChainAt(t.mem, t.chains[b], b, i);
    assert t.chains[b][i] in t.chains[b];
  }

  lemma HomeIsView(t: Shape, root: nat, hash: FlowKey -> nat)
    requires GoodShape(t, root, hash)
    ensures forall k :: k in t.home <==> k in ShapeView(t)
    ensures forall p :: p in t.mem && p != root ==>
              var f := t.mem[p].data; f.key in ShapeView(t) && ShapeView(t)[f.key] == f
  {
  }

  lemma FlowIsMortal(t: Shape, root: nat, hash: FlowKey -> nat, p: nat)
    requires GoodShape(t, root, hash) && p in t.mem && p != root
    ensures MortalFlow(t.mem[p].data)
  {
  }

  ghost predicate ExpiredHere(cfg: Config, now: nat, v: View, hash: FlowKey -> nat, size: nat, b: nat, k: FlowKey)
    requires size > 0
  {
    k in v && hash(k) % size == b && Expired(cfg, now, v[k])
  }

  /** A new flow takes the place of one expired flow of its bucket, or a new
      node if the bucket has none. */
  ghost predicate ReuseRule(cfg: Config, now: nat, v: View, kept: View, hash: FlowKey -> nat, size: nat, b: nat)
    requires size > 0
  {
    if exists k :: ExpiredHere(cfg, now, v, hash, size, b, k)
    then exists k' :: ExpiredHere(cfg, now, v, hash, size, b, k') && kept == v - {k'}
    else kept == v
  }

  lemma ReusesOne(cfg: Config, now: nat, t: Shape, root: nat, hash: FlowKey -> nat, b: nat, p: nat)
    requires GoodShape(t, root, hash) && Candidate(cfg, now, t, root, b, p)
    ensures ReuseRule(cfg, now, ShapeView(t), ShapeView(t) - {t.mem[p].data.key}, hash, |t.buckets|, b)
  {
    assert ExpiredHere(cfg, now, ShapeView(t), hash, |t.buckets|, b, t.mem[p].data.key);
  }

  lemma NoneToReuse(cfg: Config, now: nat, t: Shape, root: nat, hash: FlowKey -> nat, b: nat)
    requires GoodShape(t, root, hash) && b < |t.chains| && NoCandidate(cfg, now, t, b, |t.chains[b]|)
    ensures ReuseRule(cfg, now, ShapeView(t), ShapeView(t), hash, |t.buckets|, b)
  {
    forall k ensures !ExpiredHere(cfg, now, ShapeView(t), hash, |t.buckets|, b, k) {
      if k in t.home && hash(k) % |t.buckets| == b {
        var p := t.home[k];
        assert t.mem[p].bucket == b && p in t.chains[b];
        var m :| 0 <= m < |t.chains[b]| && t.chains[b][m] == p;
      }
    }
  }

  // ----- how many flows there are

  lemma {:induction false} OneToOneSize(home: map<FlowKey, nat>)
    requires forall k, l :: k in home && l in home && home[k] == home[l] ==> k == l
    ensures |home.Keys| == |home.Values|
    decreases |home.Keys|
  {
    if home.Keys != {} {
      var k :| k in home;
      var rest := home - {k};
      OneToOneSize(rest);
      assert home.Keys == rest.Keys + {k};
      assert home.Values == rest.Values + {home[k]} && home[k] !in rest.Values;
    }
  }

  lemma HomesOneToOne(mem: Nodes, root: nat, home: map<FlowKey, nat>)
    requires Homed(mem, root, home)
    ensures forall k, l :: k in home && l in home && home[k] == home[l] ==> k == l
    ensures ViewOf(mem, home).Keys == home.Keys
  {
  }

  /** The nodes besides the sentinel are the homes of the flows. */
  lemma NodesAreHomes(t: Shape, root: nat, hash: FlowKey -> nat)
    requires GoodShape(t, root, hash)
    ensures Elements(t.path) == t.home.Values + {root} && root !in t.home.Values
    ensures Distinct(t.path)
  {
    forall p | p in t.path ensures p in t.mem {
      var i :| 0 <= i < |t.path| && t.path[i] == p;
      assert LruAt(t.mem, t.path, i);
    }
    assert root in t.path;
  }

  /** Each flow has one node besides the sentinel. */
  lemma FlowPerNode(t: Shape, root: nat, hash: FlowKey -> nat)
    requires GoodShape(t, root, hash)
    ensures |ShapeView(t)| == |t.path| - 1
  {
    hide LruPath, Chains, SameNodes, InPlace, Homed;
    NodesAreHomes(t, root, hash);
    HomesOneToOne(t.mem, root, t.home);
    OneToOneSize(t.home);
    DistinctSize(t.path);
  }

  /** When nodes have run out: a prune, at most once a minute. */
  ghost predicate EmergencyRule(cfg: Config, now: nat, last: nat, last': nat, v: View, v': View) {
    if now > last + 60 then last' == now && v' == Live(cfg, now, v)
    else last' == last && v' == v
  }

  lemma StepSkipped(cfg: Config, v: View, now: nat, pkt: Packet, kept: View)
    requires KeyOf(pkt) !in v && (kept == v || kept == Live(cfg, now, v))
    ensures Step(cfg, v, now, pkt, false, kept, kept, false)
  {
  }

  lemma StepCreated(cfg: Config, v: View, now: nat, pkt: Packet, forgotten: set<FlowKey>)
    requires KeyOf(pkt) !in v
    requires forall k :: k in forgotten ==> k in v && Expired(cfg, now, v[k])
    ensures Step(cfg, v, now, pkt, true, v - forgotten, (v - forgotten)[KeyOf(pkt) := Created(now, pkt)], true)
  {
  }

  lemma LiveForgets(cfg: Config, now: nat, v: View)
    ensures Forgets(cfg, now, v, v) && Forgets(cfg, now, v, Live(cfg, now, v))
  {
  }

  /** A key not found in its bucket is nowhere in the table. */
  lemma AbsentFromChain(t: Shape, root: nat, hash: FlowKey -> nat, key: FlowKey)
    requires GoodShape(t, root, hash) && |t.chains| == |t.buckets| > 0
    requires var c := t.chains[hash(key) % |t.buckets|];
             forall m :: 0 <= m < |c| ==> c[m] in t.mem && t.mem[c[m]].data.key != key
    ensures key !in t.home
  {
    forall k | k in t.home
      ensures t.mem[t.home[k]].data.key == k && t.home[k] in t.chains[hash(k) % |t.buckets|]
    {
      assert t.mem[t.home[k]].bucket == hash(k) % |t.buckets|;
    }
  }

  class Table {
    const cfg: Config
    const hash: FlowKey -> nat
    var mem: Nodes
    var buckets: seq<nat>
    const root: nat
    var last: nat
    var totalNodes: nat
    var pruneDeadline: nat
    var emergencyPrune: nat

    ghost const capacity: nat
    ghost var path: seq<nat>
    ghost var chains: seq<seq<nat>>
    ghost var home: map<FlowKey, nat>

    ghost function Now(): Shape
      reads this
    {
      Shape(mem, buckets, path, chains, home)
    }

    /** Everything but the pointer to the last node. */
    ghost predicate Linked()
      reads this
    {
      GoodShape(Now(), root, hash) && totalNodes + |path| - 1 == capacity
    }

    ghost predicate Valid()
      reads this
    {
      Linked() && last == path[|path| - 1]
    }

    ghost function View(): View
      reads this
      requires Linked()
    {
      ShapeView(Now())
    }

    constructor (cfg: Config, hash: FlowKey -> nat, hashSize: nat, nodes: nat, now: nat)
      requires 0 < hashSize <= 65536
      ensures Valid() && View() == map[] && capacity == nodes
      ensures this.cfg == cfg && this.hash == hash && |buckets| == hashSize
      ensures pruneDeadline == now + 3600 && emergencyPrune == 0
    {
      this.cfg, this.hash := cfg, hash;
      root, last := 1, 1;
      var zero := Flow(FlowKey(Endpoints(0, 0, 0, 0), 0), Pair(0, 0), Pair(0, 0), 0);
      mem := map[1 := Node(zero, 0, NULL, NULL, NULL, NULL)];
      buckets := seq(hashSize, _ => NULL);
      totalNodes, capacity := nodes, nodes;
      pruneDeadline, emergencyPrune := now + FLOW_TABLE_PRUNE_INTERVAL, 0;
      path, chains, home := [1], seq(hashSize, _ => []), map[];
      new;
      EmptyTable(mem, buckets, chains);
    }

    static lemma EmptyTable(mem: Nodes, buckets: seq<nat>, chains: seq<seq<nat>>)
      requires mem.Keys == {1} && mem[1].lruNext == NULL
      requires |buckets| == |chains|
      requires forall b :: 0 <= b < |buckets| ==> buckets[b] == NULL && chains[b] == []
      ensures WellLinked(mem, buckets, [1], chains)
    {
      assert LruAt(mem, [1], 0);
      forall b | 0 <= b < |chains| ensures Chain(mem, buckets[b], chains[b], b) {
      }
    }

    /** Takes a node out of its chain and off the list, and frees it. */
    method Remove(fp: nat, ghost k: nat)
      requires Linked() && 0 < k < |path| && path[k] == fp
      modifies this`mem, this`buckets, this`totalNodes, this`path, this`chains, this`home
      ensures Linked() && path == RemoveAt(old(path), k)
      ensures fp in old(mem) && old(mem)[fp].lruNext == At(old(path), k + 1)
      ensures LosesFlow(old(Now()), Now(), root, hash, fp) && |buckets| == |old(buckets)|
    {
      hide GoodShape, ShapeView, LosesFlow;
      ghost var t := Now();
      ghost var j := RemoveFlow(t, root, hash, fp, k);
      Detach(fp, k, j);
      totalNodes := totalNodes + 1;
    }

    method Detach(fp: nat, ghost k: nat, ghost j: nat)
      requires Takeable(Now(), fp, k, j)
      modifies this`mem, this`buckets, this`path, this`chains, this`home
      ensures Now() == ShapeWithout(old(Now()), fp, k, j)
    {
      ghost var t := mem;
      mem, buckets := UnlinkFromChain(mem, buckets, fp);
      mem := UnlinkFromList(mem, fp);
      mem := mem - {fp};
      path, chains, home := RemoveAt(path, k), ChainsWithout(t, chains, fp, j), home - {t[fp].data.key};
    }

    /** Removes exactly the flows expired in both directions, and keeps the
        order of the list. */
    method PruneOldFlows(now: nat)
      requires Valid()
      modifies this`mem, this`buckets, this`last, this`totalNodes, this`path, this`chains, this`home
      ensures Valid()
      ensures View() == Live(cfg, now, old(View())) && |buckets| == |old(buckets)|
      ensures path == Survivors(cfg, now, old(mem), root, old(path))
    {
      hide GoodShape, ShapeView, Forgets, LosesFlow, AliveUpTo, Expired, Live, Swept;
      ghost var v, t0 := View(), Now();
      ghost var i, j := 0, 1;
      StartSweep(cfg, now, root, hash, t0);
      var lastSeen := root;
      StartOfList(cfg, now, Now(), root, hash);
      var fp := mem[root].lruNext;
      while fp != NULL
        invariant Linked() && |buckets| == |old(buckets)|
        invariant 0 <= i < |path| && lastSeen == path[i] && fp == At(path, i + 1)
        invariant Forgets(cfg, now, v, View())
        invariant AliveUpTo(cfg, now, Now(), i)
        invariant Swept(cfg, now, root, t0, Now(), i, j)
        decreases |path| - i
      {
        ghost var t := Now();
        OnTheList(t, root, hash, i + 1);
        if Expired(cfg, now, mem[fp].data) {
          var temp := mem[fp].lruNext;
          Remove(fp, i + 1);
          StillAlive(cfg, now, v, t, Now(), root, hash, i);
          SweepRemoved(cfg, now, root, hash, t0, t, Now(), i, j);
          fp := temp;
        } else {
          NextAlive(cfg, now, t, i);
          SweepKept(cfg, now, root, t0, t, i, j);
          lastSeen := fp;
          fp := mem[fp].lruNext;
          i := i + 1;
        }
        j := j + 1;
      }
      EndOfList(Now(), root, hash, i + 1);
      SweepDone(cfg, now, root, t0, Now(), j);
      last := lastSeen;
      AllAlive(cfg, now, v, Now(), root, hash);
    }

    /** Walks the chain of a bucket: the node with the key if there is one;
        otherwise the first expired node and the end of the chain. */
    method Search(bucket: nat, key: FlowKey, now: nat) returns (found: nat, candidate: nat, lastSeen: nat)
      requires Linked() && bucket == hash(key) % |buckets|
      ensures SearchResult(cfg, now, Now(), root, bucket, key, found, candidate, lastSeen)
    {
      hide GoodShape;
      found, candidate, lastSeen := NULL, NULL, NULL;
      ghost var t, i := Now(), 0;
      HasChains(t, root, hash);
      HeadOfChain(mem, buckets, chains, bucket);
      ghost var c := chains[bucket];
      var fp := buckets[bucket];
      while fp != NULL
        invariant 0 <= i <= |c| && fp == At(c, i) && lastSeen == At(c, i - 1)
        invariant forall m :: 0 <= m < i ==> c[m] in mem && mem[c[m]].data.key != key
        invariant candidate != NULL ==>
                    Candidate(cfg, now, t, root, bucket, candidate) && FirstCandidate(cfg, now, t, bucket, candidate)
        invariant candidate == NULL ==> NoCandidate(cfg, now, t, bucket, i)
        decreases |c| - i
      {
        InChain(t, root, hash, bucket, i);
        if mem[fp].data.key == key {
          found := fp;
          return;
        }
        if candidate == NULL && Expired(cfg, now, mem[fp].data) {
          candidate := fp;
        }
        lastSeen := fp;
        fp := mem[fp].next;
        i := i + 1;
      }
      EndOfChain(mem, buckets, chains, bucket, i);
      AbsentFromChain(t, root, hash, key);
    }

    /** Starts a flow on a new node, linked behind the last node of its chain
        and of the list. */
    method Allocate(lastSeen: nat, bucket: nat, f: Flow)
      requires Valid() && totalNodes > 0 && f.key !in View() && MortalFlow(f) && bucket == hash(f.key) % |buckets|
      requires bucket < |chains| && lastSeen == At(chains[bucket], |chains[bucket]| - 1)
      modifies this`mem, this`buckets, this`last, this`totalNodes, this`path, this`chains, this`home
      ensures Valid() && View() == old(View())[f.key := f]
      ensures totalNodes == old(totalNodes) - 1 && |buckets| == |old(buckets)|
    {
      hide GoodShape, ShapeView, Added;
      ghost var t := Now();
      ghost var bound := UpperBound(mem.Keys);
      assert bound !in mem && bound != NULL;
      var newf :| newf !in mem && newf != NULL;
      AddFlow(t, root, hash, newf, bucket, f);
      totalNodes := totalNodes - 1;
      mem, buckets := LinkNew(mem, buckets, lastSeen, last, newf, bucket, f);
      last := newf;
      path, chains, home := path + [newf], chains[bucket := chains[bucket] + [newf]], home[f.key := newf];
      assert Now() == ShapeWith(t, newf, bucket, f);
    }

    /** Gives a node of the list another flow and the last place. */
    method Renew(fp: nat, f: Flow, ghost k: nat)
      requires k < |path| && fp in mem && last in mem && last == path[|path| - 1]
      requires mem[fp].lruNext != NULL ==> mem[fp].lruPrev in mem && mem[fp].lruNext in mem
      requires mem[fp].lruNext == NULL ==> last == fp
      modifies this`mem, this`last, this`path, this`home
      ensures Now() == ShapeReused(old(Now()), fp, k, f) && last == fp
      ensures |path| == |old(path)| && path[|path| - 1] == fp
    {
      hide MovedToEnd;
      var n := mem[fp];
      if n.lruNext != NULL {
        MovedKeeps(mem, last, fp);
        mem := MoveToEnd(mem, last, fp);
        last := fp;
        path := RemoveAt(path, k) + [fp];
      }
      mem := mem[fp := mem[fp].(data := f)];
      home := (home - {n.data.key})[f.key := fp];
    }

    /** Starts a flow on an expired node, which moves to the end of the list. */
    method Reuse(fp: nat, f: Flow)
      requires Valid() && fp in mem && fp in path && fp != root
      requires f.key !in View() && MortalFlow(f) && hash(f.key) % |buckets| == mem[fp].bucket
      modifies this`mem, this`last, this`path, this`home
      ensures Valid() && View() == (old(View()) - {old(mem)[fp].data.key})[f.key := f]
    {
      hide GoodShape, ShapeView, ShapeReused;
      ghost var t := Now();
      ghost var k :| 0 <= k < |path| && path[k] == fp;
      StartOfList(cfg, 0, t, root, hash);
      ReuseFlow(t, root, hash, fp, k, f);
      Renew(fp, f, k);
    }

    /** A packet whose key is not in the table. `kept` is what is left of the
        table when expired flows have been forgotten. */
    method CreateFlow(now: nat, candidate: nat, lastSeen: nat, bucket: nat, pkt: Packet)
      returns (newFlow: bool, ghost kept: View)
      requires Valid() && bucket == hash(KeyOf(pkt)) % |buckets|
      requires SearchResult(cfg, now, Now(), root, bucket, KeyOf(pkt), NULL, candidate, lastSeen)
      modifies this`mem, this`buckets, this`last, this`totalNodes, this`emergencyPrune, this`path, this`chains,
               this`home
      ensures Valid()
      ensures Step(cfg, old(View()), now, pkt, old(totalNodes) > 0, kept, View(), newFlow)
      ensures old(totalNodes) == 0 ==> EmergencyRule(cfg, now, old(emergencyPrune), emergencyPrune, old(View()), View())
      ensures |buckets| == |old(buckets)| > 0
      ensures old(totalNodes) > 0 ==>
                && emergencyPrune == old(emergencyPrune)
                && ReuseRule(cfg, now, old(View()), kept, hash, |buckets|, bucket)
    {
      hide GoodShape, ShapeView, Expired, MortalFlow, Created, Step, Forgets, Live, ReuseRule, NoCandidate;
      var f := Created(now, pkt);
      CreatedIsMortal(now, pkt);
      HomeIsView(Now(), root, hash);
      HasChains(Now(), root, hash);
      ghost var v := View();
      if totalNodes == 0 {
        if now > emergencyPrune + FLOW_TABLE_EMER_PRUNE_INTERVAL {
          emergencyPrune := now;
          PruneOldFlows(now);
        }
        kept := View();
        newFlow := false;
        StepSkipped(cfg, v, now, pkt, kept);
      } else if candidate != NULL {
        kept := v - {mem[candidate].data.key};
        StepCreated(cfg, v, now, pkt, {mem[candidate].data.key});
        ReusesOne(cfg, now, Now(), root, hash, bucket, candidate);
        Reuse(candidate, f);
        newFlow := true;
      } else {
        kept := v - {};
        assert kept == v;
        StepCreated(cfg, v, now, pkt, {});
        NoneToReuse(cfg, now, Now(), root, hash, bucket);
        Allocate(lastSeen, bucket, f);
        newFlow := true;
      }
    }

    method FindFlow(now: nat, pkt: Packet) returns (newFlow: bool, ghost kept: View)
      requires Valid()
      modifies this`mem, this`buckets, this`last, this`totalNodes, this`emergencyPrune, this`path, this`chains,
               this`home
      ensures Valid()
      ensures Step(cfg, old(View()), now, pkt, old(totalNodes) > 0, kept, View(), newFlow)
      ensures if old(totalNodes) == 0 && KeyOf(pkt) !in old(View())
              then EmergencyRule(cfg, now, old(emergencyPrune), emergencyPrune, old(View()), View())
              else emergencyPrune == old(emergencyPrune)
      ensures |buckets| == |old(buckets)| > 0
      ensures old(totalNodes) > 0 && KeyOf(pkt) !in old(View()) ==>
                ReuseRule(cfg, now, old(View()), kept, hash, |buckets|, hash(KeyOf(pkt)) % |buckets|)
    {
      hide GoodShape, ShapeView, Expired, MortalFlow, ReuseRule;
      var key, idx := KeyOf(pkt), DirectionOf(pkt);
      HasChains(Now(), root, hash);
      HomeIsView(Now(), root, hash);
      var bucket := hash(key) % |buckets|;
      var fp, candidate, lastSeen := Search(bucket, key, now);
      if fp != NULL {
        var f := Touched(cfg, mem[fp].data, now, pkt, idx);
        FlowIsMortal(Now(), root, hash, fp);
        TouchedIsMortal(cfg, mem[fp].data, now, pkt, idx);
        TouchFlow(Now(), root, hash, fp, f);
        kept := View();
        newFlow := ExpiredUni(cfg, now, mem[fp].data, idx);
        mem := mem[fp := mem[fp].(data := f)];
      } else {
        newFlow, kept := CreateFlow(now, candidate, lastSeen, bucket, pkt);
      }
    }

    /** The handler of a packet: a periodic prune, then the flow. */
    method Handle(now: nat, pkt: Packet) returns (newFlow: bool, ghost r: Record)
      requires Valid()
      modifies this
      ensures Valid()
      ensures r.before == old(View()) && r.after == View() && r.newFlow == newFlow
      ensures RecordOf(cfg, Event(now, pkt), r)
      ensures r.pruned == if now > old(pruneDeadline) then Live(cfg, now, r.before) else r.before
      ensures pruneDeadline == if now > old(pruneDeadline) then now + 3600 else old(pruneDeadline)
      ensures r.room <==> |r.pruned| < capacity
      ensures totalNodes + |View()| == capacity
      ensures |buckets| == |old(buckets)| > 0
      ensures r.room && KeyOf(pkt) !in r.pruned ==>
                ReuseRule(cfg, now, r.pruned, r.kept, hash, |buckets|, hash(KeyOf(pkt)) % |buckets|)
    {
      hide GoodShape, ShapeView, Forgets, Step, Live, ReuseRule;
      ghost var before := View();
      LiveForgets(cfg, now, before);
      if now > pruneDeadline {
        PruneOldFlows(now);
        pruneDeadline := now + FLOW_TABLE_PRUNE_INTERVAL;
      }
      ghost var pruned, room := View(), totalNodes > 0;
      ghost var kept;
      FlowPerNode(Now(), root, hash);
      newFlow, kept := FindFlow(now, pkt);
      FlowPerNode(Now(), root, hash);
      r := Record(before, pruned, room, kept, View(), newFlow);
    }
  }
}
