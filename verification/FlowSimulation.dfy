/**
 Forgetting is unobservable for non-TCP traffic: over any run of the flow
 table, whatever it prunes or reuses, the answers about non-TCP packets are
 those of an ideal table that keeps every flow for ever. For TCP the claim
 is false for any lifetimes, and a run shows it.
 */
module FlowSimulation {
  import opened FlowRules

  datatype Event = Event(now: nat, pkt: Packet)

  // ----- the ideal table

  function IdealStep(cfg: Config, w: View, e: Event): View {
    var k := KeyOf(e.pkt);
    if k in w then w[k := Touched(cfg, w[k], e.now, e.pkt, DirectionOf(e.pkt))]
    else w[k := Created(e.now, e.pkt)]
  }

  function IdealAnswer(cfg: Config, w: View, e: Event): bool {
    var k := KeyOf(e.pkt);
    k in w ==> ExpiredUni(cfg, e.now, w[k], DirectionOf(e.pkt))
  }

  /** The ideal table after the first `n` events. */
  function IdealView(cfg: Config, events: seq<Event>, n: nat): View
    requires n <= |events|
  {
    if n == 0 then map[] else IdealStep(cfg, IdealView(cfg, events, n - 1), events[n - 1])
  }

  // ----- runs of the real table

  /** One call of the handler: perhaps a prune, then the packet. */
  datatype Record = Record(before: View, pruned: View, room: bool, kept: View, after: View, newFlow: bool)

  ghost predicate RecordOf(cfg: Config, e: Event, r: Record) {
    && Forgets(cfg, e.now, r.before, r.pruned)
    && Step(cfg, r.pruned, e.now, e.pkt, r.room, r.kept, r.after, r.newFlow)
  }

  ghost predicate Run(cfg: Config, events: seq<Event>, records: seq<Record>) {
    && |records| == |events|
    && (forall i :: 0 <= i < |events| ==> RecordOf(cfg, events[i], records[i]))
    && (|records| > 0 ==> records[0].before == map[])
    && forall i :: 0 < i < |records| ==> records[i].before == records[i - 1].after
  }

  ghost predicate ClockMonotone(events: seq<Event>) {
    forall i, j :: 0 <= i < j < |events| ==> events[i].now <= events[j].now
  }

  /** No packet is skipped for want of nodes. */
  ghost predicate NeverSkips(events: seq<Event>, records: seq<Record>) {
    |records| == |events| &&
    forall i :: 0 <= i < |records| ==> records[i].room || KeyOf(events[i].pkt) in records[i].pruned
  }

  ghost function KeysOf(events: seq<Event>): set<FlowKey> {
    set e | e in events :: KeyOf(e.pkt)
  }

  lemma {:induction false} KeysComeFromEvents(cfg: Config, events: seq<Event>, records: seq<Record>, n: nat)
    requires Run(cfg, events, records) && n < |events|
    ensures records[n].before.Keys <= KeysOf(events)
  {
    if n > 0 {
      KeysComeFromEvents(cfg, events, records, n - 1);
      assert RecordOf(cfg, events[n - 1], records[n - 1]);
      assert events[n - 1] in events;
      assert records[n].before.Keys <= records[n - 1].kept.Keys + {KeyOf(events[n - 1].pkt)};
    }
  }

  lemma RoomForOne(keys: set<FlowKey>, all: set<FlowKey>, k: FlowKey)
    requires keys <= all && k in all && k !in keys
    ensures |keys| < |all|
  {
    assert k in all - keys;
    assert all == keys + (all - keys);
  }

  /** A budget of one node per conversation never runs out. */
  lemma EnoughNodes(cfg: Config, events: seq<Event>, records: seq<Record>, capacity: nat)
    requires Run(cfg, events, records) && |KeysOf(events)| <= capacity
    requires forall i :: 0 <= i < |records| ==> (records[i].room <==> |records[i].pruned| < capacity)
    ensures NeverSkips(events, records)
  {
    forall i | 0 <= i < |records| ensures records[i].room || KeyOf(events[i].pkt) in records[i].pruned {
      KeysComeFromEvents(cfg, events, records, i);
      PrunedKeys(cfg, events[i], records[i]);
      hide Run, KeysOf, RecordOf;
      KeyOfEvent(events, i);
      if KeyOf(events[i].pkt) !in records[i].pruned.Keys {
        RoomForOne(records[i].pruned.Keys, KeysOf(events), KeyOf(events[i].pkt));
      }
    }
  }

  lemma PrunedKeys(cfg: Config, e: Event, r: Record)
    requires RecordOf(cfg, e, r)
    ensures r.pruned.Keys <= r.before.Keys
  {
  }

  lemma KeyOfEvent(events: seq<Event>, i: nat)
    requires i < |events|
    ensures KeyOf(events[i].pkt) in KeysOf(events)
  {
    assert events[i] in events;
  }

  // ----- the simulation

  predicate Keyed(v: View) {
    forall k :: k in v ==> v[k].key == k
  }

  /** When a direction was last seen; 0 if never. */
  function LastSeen(v: View, k: FlowKey, idx: bool): nat {
    if k in v then v[k].last.Get(idx) else 0
  }

  /** The tables agree on a direction, or it is expired in both. */
  ghost predicate Agree(cfg: Config, t: nat, v: View, w: View, k: FlowKey, idx: bool) {
    || LastSeen(v, k, idx) == LastSeen(w, k, idx)
    || (t > LastSeen(v, k, idx) + cfg.generic && t > LastSeen(w, k, idx) + cfg.generic)
  }

  ghost predicate Similar(cfg: Config, t: nat, v: View, w: View) {
    && Keyed(v) && Keyed(w)
    && forall k: FlowKey, idx :: k.proto != IPPROTO_TCP ==> Agree(cfg, t, v, w, k, idx)
  }

  lemma LaterSimilar(cfg: Config, t: nat, t': nat, v: View, w: View)
    requires Similar(cfg, t, v, w) && t <= t'
    ensures Similar(cfg, t', v, w)
  {
    forall k: FlowKey, idx | k.proto != IPPROTO_TCP ensures Agree(cfg, t', v, w, k, idx) {
      assert Agree(cfg, t, v, w, k, idx);
    }
  }

  lemma ForgettingSimilar(cfg: Config, t: nat, v: View, v': View, w: View)
    requires Similar(cfg, t, v, w) && Forgets(cfg, t, v, v') && t > cfg.generic
    ensures Similar(cfg, t, v', w)
  {
    forall k: FlowKey, idx | k.proto != IPPROTO_TCP ensures Agree(cfg, t, v', w, k, idx) {
      assert Agree(cfg, t, v, w, k, idx);
      if k in v && k !in v' {
        assert ExpiredUni(cfg, t, v[k], idx);
      }
    }
  }

  /** The answer depends on the direction's last packet only. */
  lemma AnswerFromLastSeen(cfg: Config, v: View, now: nat, pkt: Packet)
    requires Keyed(v) && pkt.proto != IPPROTO_TCP && now > cfg.generic
    ensures var k, idx := KeyOf(pkt), DirectionOf(pkt);
            (k in v ==> ExpiredUni(cfg, now, v[k], idx)) <==> now > LastSeen(v, k, idx) + cfg.generic
  {
  }

  lemma SeenAt(cfg: Config, v: View, now: nat, pkt: Packet, k: FlowKey, idx: bool)
    requires Keyed(v)
    ensures var v' := IdealStep(cfg, v, Event(now, pkt));
            && Keyed(v')
            && LastSeen(v', k, idx) ==
               if k == KeyOf(pkt) && idx == DirectionOf(pkt) then now else LastSeen(v, k, idx)
  {
    var g := Flow(KeyOf(pkt), Pair(0, 0), Pair(0, 0), 0);
    EvaluateKeepsPlace(g, pkt, DirectionOf(pkt));
    if KeyOf(pkt) in v {
      var f := v[KeyOf(pkt)];
      EvaluateKeepsPlace(f, pkt, DirectionOf(pkt));
      EvaluateKeepsPlace(Cleared(f, DirectionOf(pkt)), pkt, DirectionOf(pkt));
    }
  }

  lemma EvaluateKeepsPlace(f: Flow, pkt: Packet, idx: bool)
    ensures EvaluateTcpFlags(f, pkt, idx).key == f.key && EvaluateTcpFlags(f, pkt, idx).last == f.last
  {
  }

  lemma StepSimilar(cfg: Config, e: Event, v: View, w: View)
    requires Similar(cfg, e.now, v, w)
    ensures Similar(cfg, e.now, IdealStep(cfg, v, e), IdealStep(cfg, w, e))
  {
    SeenAt(cfg, v, e.now, e.pkt, KeyOf(e.pkt), true);
    SeenAt(cfg, w, e.now, e.pkt, KeyOf(e.pkt), true);
    forall k: FlowKey, idx | k.proto != IPPROTO_TCP
      ensures Agree(cfg, e.now, IdealStep(cfg, v, e), IdealStep(cfg, w, e), k, idx)
    {
      assert Agree(cfg, e.now, v, w, k, idx);
      SeenAt(cfg, v, e.now, e.pkt, k, idx);
      SeenAt(cfg, w, e.now, e.pkt, k, idx);
    }
  }

  /** One call of the handler keeps the tables similar and, for a non-TCP
      packet, answers as the ideal table does. */
  lemma RecordSimilar(cfg: Config, e: Event, r: Record, w: View)
    requires RecordOf(cfg, e, r) && (r.room || KeyOf(e.pkt) in r.pruned) && e.now > cfg.generic
    requires Similar(cfg, e.now, r.before, w)
    ensures Similar(cfg, e.now, r.after, IdealStep(cfg, w, e))
    ensures e.pkt.proto != IPPROTO_TCP ==> r.newFlow == IdealAnswer(cfg, w, e)
  {
    var k, idx := KeyOf(e.pkt), DirectionOf(e.pkt);
    ForgettingSimilar(cfg, e.now, r.before, r.pruned, w);
    if e.pkt.proto != IPPROTO_TCP {
      assert Agree(cfg, e.now, r.pruned, w, k, idx);
      AnswerFromLastSeen(cfg, r.pruned, e.now, e.pkt);
      AnswerFromLastSeen(cfg, w, e.now, e.pkt);
    }
    ForgettingSimilar(cfg, e.now, r.pruned, r.kept, w);
    StepSimilar(cfg, e, r.kept, w);
    assert r.after == IdealStep(cfg, r.kept, e);
  }

  lemma {:induction false} RunSimilar(cfg: Config, events: seq<Event>, records: seq<Record>, n: nat)
    requires Run(cfg, events, records) && NeverSkips(events, records) && ClockMonotone(events)
    requires forall i :: 0 <= i < |events| ==> events[i].now > cfg.generic
    requires n < |events|
    ensures Similar(cfg, events[n].now, records[n].before, IdealView(cfg, events, n))
  {
    if n > 0 {
      RunSimilar(cfg, events, records, n - 1);
      RecordSimilar(cfg, events[n - 1], records[n - 1], IdealView(cfg, events, n - 1));
      LaterSimilar(cfg, events[n - 1].now, events[n].now, records[n].before, IdealView(cfg, events, n));
    }
  }

  /** Pruning and reuse are unobservable for non-TCP packets, whatever TCP
      traffic comes in between. */
  lemma ForgettingUnobservable(cfg: Config, events: seq<Event>, records: seq<Record>, n: nat)
    requires Run(cfg, events, records) && NeverSkips(events, records) && ClockMonotone(events)
    requires forall i :: 0 <= i < |events| ==> events[i].now > cfg.generic
    requires n < |events| && events[n].pkt.proto != IPPROTO_TCP
    ensures records[n].newFlow == IdealAnswer(cfg, IdealView(cfg, events, n), events[n])
  {
    RunSimilar(cfg, events, records, n);
    RecordSimilar(cfg, events[n], records[n], IdealView(cfg, events, n));
  }

  // ----- TCP

  const ENDS := Endpoints(1, 2, 2, 1)

  const KEY := FlowKey(ENDS, IPPROTO_TCP)

  function Forward(flags: bv8): Packet {
    Packet(ENDS, IPPROTO_TCP, flags, 0)
  }

  function Reply(flags: bv8): Packet {
    Packet(Swapped(ENDS), IPPROTO_TCP, flags, 0)
  }

  function Only(forward: nat, reverse: nat, flags: bv8): View {
    map[KEY := Flow(KEY, Pair(forward, reverse), Pair(flags, flags), 0)]
  }

  /** A time past the lifetime of non-TCP flows, and past the first prune. */
  function Start(cfg: Config): nat {
    cfg.generic + 3600
  }

  /** A connection reset by both ends and forgotten, then closed by one: in a
      table that kept it the FIN, which lives longer than the RST, makes the
      other direction, long expired, live again. */
  function ResetThenClosed(cfg: Config): seq<Event> {
    var t := Start(cfg);
    [ Event(t, Forward(TH_RST)), Event(t, Reply(TH_RST)),
      Event(t + 11, Forward(TH_FIN)), Event(t + 12, Reply(TH_ACK)) ]
  }

  ghost function ResetRecords(cfg: Config): seq<Record> {
    var t := Start(cfg);
    var v1, v2, v3 := Only(t, 0, TH_RST), Only(t, t, TH_RST), Only(t + 11, 0, TH_FIN);
    var v4 := map[KEY := Touched(cfg, v3[KEY], t + 12, Reply(TH_ACK), true)];
    [ Record(map[], map[], true, map[], v1, true),
      Record(v1, v1, true, v1, v2, true),
      Record(v2, map[], true, map[], v3, true),
      Record(v3, v3, true, v3, v4, true)
    ]
  }

  lemma ResetIdeal(cfg: Config)
    ensures !IdealAnswer(cfg, IdealView(cfg, ResetThenClosed(cfg), 3), ResetThenClosed(cfg)[3])
  {
    var t, events := Start(cfg), ResetThenClosed(cfg);
    assert IdealView(cfg, events, 1) == Only(t, 0, TH_RST);
    assert IdealView(cfg, events, 2) == Only(t, t, TH_RST);
    assert IdealView(cfg, events, 3) == Only(t + 11, t, TH_FIN);
  }

  lemma ResetStart(cfg: Config)
    ensures RecordOf(cfg, ResetThenClosed(cfg)[0], ResetRecords(cfg)[0])
    ensures RecordOf(cfg, ResetThenClosed(cfg)[1], ResetRecords(cfg)[1])
  {
  }

  lemma ResetEnd(cfg: Config)
    ensures RecordOf(cfg, ResetThenClosed(cfg)[2], ResetRecords(cfg)[2])
    ensures RecordOf(cfg, ResetThenClosed(cfg)[3], ResetRecords(cfg)[3])
  {
  }

  /** A run as the claim asks for: the clock does not go back and is past the
      lifetime of non-TCP flows, and no packet is skipped. */
  ghost predicate FairRun(cfg: Config, events: seq<Event>, records: seq<Record>) {
    && Run(cfg, events, records) && NeverSkips(events, records) && ClockMonotone(events)
    && forall i :: 0 <= i < |events| ==> events[i].now > cfg.generic
  }

  /** Packet `n` of a run is answered as if nothing had been forgotten. */
  ghost predicate AnsweredIdeally(cfg: Config, events: seq<Event>, records: seq<Record>, n: nat)
    requires n < |events| == |records|
  {
    records[n].newFlow == IdealAnswer(cfg, IdealView(cfg, events, n), events[n])
  }

  /** For TCP forgetting can be observed, whatever the lifetimes are. */
  lemma TcpForgettingObservable(cfg: Config)
    ensures FairRun(cfg, ResetThenClosed(cfg), ResetRecords(cfg))
    ensures !AnsweredIdeally(cfg, ResetThenClosed(cfg), ResetRecords(cfg), 3)
  {
    hide RecordOf, IdealAnswer, IdealView;
    ResetIdeal(cfg);
    ResetStart(cfg);
    ResetEnd(cfg);
  }

  /** Forgetting is unobservable by the packets of a protocol, over all runs,
      if and only if the protocol is not TCP. */
  lemma UnobservableExactly(cfg: Config, proto: nat)
    ensures (forall events: seq<Event>, records, n: nat ::
               FairRun(cfg, events, records) && n < |events| == |records| && events[n].pkt.proto == proto ==>
                 AnsweredIdeally(cfg, events, records, n))
            <==> proto != IPPROTO_TCP
  {
    if proto == IPPROTO_TCP {
      TcpForgettingObservable(cfg);
      assert ResetThenClosed(cfg)[3].pkt.proto == proto;
    } else {
      forall events: seq<Event>, records, n: nat
        | FairRun(cfg, events, records) && n < |events| == |records| && events[n].pkt.proto == proto
        ensures AnsweredIdeally(cfg, events, records, n)
      {
        ForgettingUnobservable(cfg, events, records, n);
      }
    }
  }
}
