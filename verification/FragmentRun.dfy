/**
 Whole runs of the fragment table: what it prunes and reuses is never missed.
 As long as no fragment is skipped for want of nodes, every fragment is known
 exactly if it is known to a table that keeps every deadline for ever.
 */
module FragmentRun {
  import opened LinkedTable
  import opened FragmentTable

  datatype Event = Event(now: nat, key: FragmentKey)

  // ----- the ideal table

  type Deadlines = map<FragmentKey, nat>

  predicate IdealAnswer(w: Deadlines, e: Event) {
    e.key in w && w[e.key] > e.now
  }

  function IdealStep(w: Deadlines, e: Event): Deadlines {
    if IdealAnswer(w, e) then w else w[e.key := e.now + 60]
  }

  /** The ideal table after the first `n` events. */
  function IdealView(events: seq<Event>, n: nat): Deadlines
    requires n <= |events|
  {
    if n == 0 then map[] else IdealStep(IdealView(events, n - 1), events[n - 1])
  }

  ghost predicate ClockMonotone(events: seq<Event>) {
    forall i, j :: 0 <= i < j < |events| ==> events[i].now <= events[j].now
  }

  ghost function KeysOf(events: seq<Event>): set<FragmentKey> {
    set e | e in events :: e.key
  }

  // ----- the simulation

  /** From `now` on the same keys are alive in both tables. */
  ghost predicate Similar(mem: Nodes, root: nat, w: Deadlines, now: nat) {
    forall key, t: nat :: t >= now ==> (Alive(mem, root, key, t) <==> key in w && w[key] > t)
  }

  lemma PrunedSimilar(mem: Nodes, pruned: Nodes, root: nat, w: Deadlines, clock: nat, now: nat, limit: nat)
    requires Similar(mem, root, w, clock) && clock <= now && limit <= now && OnlyStaleGone(mem, pruned, limit)
    ensures Similar(pruned, root, w, now)
  {
    forall key, t: nat | t >= now ensures Alive(pruned, root, key, t) <==> key in w && w[key] > t {
      assert Alive(mem, root, key, t) <==> key in w && w[key] > t;
      if Alive(mem, root, key, t) {
        var p :| p in mem && p != root && mem[p].data.key == key && mem[p].data.deadline > t;
        assert p in pruned;
      }
    }
  }

  lemma EnteredSimilar(mem: Nodes, mem': Nodes, root: nat, w: Deadlines, last: nat, e: Event)
    requires Similar(mem, root, w, e.now) && !Alive(mem, root, e.key, e.now)
    requires last != root && Entered(mem, mem', last, e.key, e.now)
    ensures Similar(mem', root, IdealStep(w, e), e.now)
  {
    assert !IdealAnswer(w, e);
    forall key, t: nat | t >= e.now
      ensures Alive(mem', root, key, t) <==> key in IdealStep(w, e) && IdealStep(w, e)[key] > t
    {
      assert Alive(mem, root, key, t) <==> key in w && w[key] > t;
      if key == e.key {
        assert mem'[last].data == Fragment(key, e.now + IPF_TIMEOUT);
      } else if Alive(mem, root, key, t) {
        var p :| p in mem && p != root && mem[p].data.key == key && mem[p].data.deadline > t;
        assert p in mem' && mem'[p].data == mem[p].data;
      }
    }
  }

  /** The nodes' keys are keys of the run. */
  lemma KeysStay(mem: Nodes, mem': Nodes, root: nat, keys: set<FragmentKey>, limit: nat)
    requires KeysIn(mem, root) <= keys && OnlyStaleGone(mem, mem', limit)
    ensures KeysIn(mem', root) <= keys
  {
    forall k | k in KeysIn(mem', root) ensures k in keys {
      var p :| p in mem' && p != root && mem'[p].data.key == k;
      assert mem[p].data.key in KeysIn(mem, root);
    }
  }

  lemma KeyEntered(mem: Nodes, mem': Nodes, root: nat, keys: set<FragmentKey>, last: nat, e: Event)
    requires KeysIn(mem, root) <= keys && e.key in keys && Entered(mem, mem', last, e.key, e.now)
    ensures KeysIn(mem', root) <= keys
  {
    forall k | k in KeysIn(mem', root) ensures k in keys {
      var p :| p in mem' && p != root && mem'[p].data.key == k;
      assert p != last ==> mem[p].data.key in KeysIn(mem, root);
    }
  }

  lemma AtMost(a: set<FragmentKey>, b: set<FragmentKey>)
    requires a <= b
    ensures |a| <= |b|
  {
    assert b == a + (b - a);
  }

  lemma NothingYet(t: Fragments)
    requires t.Valid() && t.rest == []
    ensures Similar(t.mem, t.root, map[], 0) && KeysIn(t.mem, t.root) == {}
  {
    NoNodes(t.Now(), t.root, t.hash, t.clock + IPF_TIMEOUT);
  }

  /** What one handled fragment does to the simulation. */
  lemma HandledSimilar(mem: Nodes, pruned: Nodes, mem': Nodes, root: nat, keys: set<FragmentKey>, w: Deadlines,
                       clock: nat, e: Event, last: nat)
    requires Similar(mem, root, w, clock) && clock <= e.now && KeysIn(mem, root) <= keys && e.key in keys
    requires pruned == mem || (e.now >= PRUNE_OFFSET && OnlyStaleGone(mem, pruned, e.now - PRUNE_OFFSET))
    ensures Alive(pruned, root, e.key, e.now) <==> IdealAnswer(w, e)
    ensures |KeysIn(pruned, root)| <= |keys|
    ensures Alive(pruned, root, e.key, e.now) && mem' == pruned ==>
              Similar(mem', root, IdealStep(w, e), e.now) && KeysIn(mem', root) <= keys
    ensures !Alive(pruned, root, e.key, e.now) && last != root && Entered(pruned, mem', last, e.key, e.now) ==>
              Similar(mem', root, IdealStep(w, e), e.now) && KeysIn(mem', root) <= keys
  {
    hide Similar, Alive, Entered, OnlyStaleGone, KeysIn;
    Unchanged(mem);
    var limit := if pruned == mem then 0 else e.now - PRUNE_OFFSET;
    PrunedSimilar(mem, pruned, root, w, clock, e.now, limit);
    KeysStay(mem, pruned, root, keys, limit);
    AtMost(KeysIn(pruned, root), keys);
    SimilarAt(pruned, root, w, e);
    if !Alive(pruned, root, e.key, e.now) && last != root && Entered(pruned, mem', last, e.key, e.now) {
      EnteredSimilar(pruned, mem', root, w, last, e);
      KeyEntered(pruned, mem', root, keys, last, e);
    }
  }

  lemma Unchanged(mem: Nodes)
    ensures OnlyStaleGone(mem, mem, 0)
  {
  }

  lemma SimilarAt(mem: Nodes, root: nat, w: Deadlines, e: Event)
    requires Similar(mem, root, w, e.now)
    ensures Alive(mem, root, e.key, e.now) <==> IdealAnswer(w, e)
  {
  }

  lemma NextEvent(events: seq<Event>, i: nat)
    requires ClockMonotone(events) && i < |events|
    ensures events[i].key in KeysOf(events)
    ensures i + 1 < |events| ==> events[i].now <= events[i + 1].now
    ensures IdealView(events, i + 1) == IdealStep(IdealView(events, i), events[i])
  {
    assert events[i] in events;
  }

  lemma NoEvents(events: seq<Event>)
    ensures IdealView(events, 0) == map[]
  {
  }

  /** The answers to a sequence of fragments by a new table, up to the first
      fragment skipped for want of nodes. They are those of the ideal table,
      and none is skipped if there are more nodes than keys. */
  method HandleAll(hash: FragmentKey -> nat, nodes: nat, start: nat, events: seq<Event>) returns (answers: seq<bool>)
    requires ClockMonotone(events) && forall i :: 0 <= i < |events| ==> events[i].now + PRUNE_INTERVAL < CLOCK_LIMIT
    ensures |answers| <= |events|
    ensures forall n :: 0 <= n < |answers| ==> answers[n] == IdealAnswer(IdealView(events, n), events[n])
    ensures |KeysOf(events)| < nodes ==> |answers| == |events|
  {
    hide Similar, Alive, Entered, OnlyStaleGone, KeysIn, GoodShape, EmergencyRule, IdealAnswer, IdealStep, IdealView,
         KeysOf, ClockMonotone;
    var table := new Fragments(hash, nodes, start);
    NothingYet(table);
    NoEvents(events);
    answers := [];
    var i, skipped := 0, false;
    while i < |events| && !skipped
      invariant 0 <= i <= |events| && |answers| == i && fresh(table)
      invariant table.Valid() && table.capacity == nodes && (i < |events| ==> table.clock <= events[i].now)
      invariant forall n :: 0 <= n < i ==> answers[n] == IdealAnswer(IdealView(events, n), events[n])
      invariant !skipped ==>
                  && !table.Dangling() && KeysIn(table.mem, table.root) <= KeysOf(events)
                  && Similar(table.mem, table.root, IdealView(events, i), table.clock)
      invariant skipped ==> nodes <= |KeysOf(events)|
    {
      var e := events[i];
      ghost var mem, clock := table.mem, table.clock;
      NextEvent(events, i);
      var known;
      ghost var pruned;
      known, skipped, pruned := table.Handle(e.now, e.key);
      HandledSimilar(mem, pruned, table.mem, table.root, KeysOf(events), IdealView(events, i), clock, e, table.last);
      answers := answers + [known];
      i := i + 1;
    }
  }
}
