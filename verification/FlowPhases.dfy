/**
 When a packet starts a new flow, told by the packets of its conversation
 alone: the lifetimes of the TCP phases, the handshake that starts the long
 one, and for other protocols the one lifetime there is.
 */
module FlowPhases {
  import opened FlowRules
  import opened FlowSimulation

  // ----- flags and conversations

  predicate IsFin(flags: bv8) {
    flags & 1 != 0
  }

  predicate IsSyn(flags: bv8) {
    flags & 2 != 0
  }

  predicate IsRst(flags: bv8) {
    flags & 4 != 0
  }

  predicate IsAck(flags: bv8) {
    flags & 16 != 0
  }

  predicate SameDirection(p: Packet, q: Packet) {
    p.proto == q.proto && p.ends == q.ends
  }

  predicate OtherDirection(p: Packet, q: Packet) {
    && p.proto == q.proto && p.ends != q.ends
    && q.ends.ipSrc == p.ends.ipDst && q.ends.ipDst == p.ends.ipSrc
    && q.ends.portSrc == p.ends.portDst && q.ends.portDst == p.ends.portSrc
  }

  predicate SameConversation(p: Packet, q: Packet) {
    SameDirection(p, q) || OtherDirection(p, q)
  }

  lemma ConversationHasKey(p: Packet, q: Packet)
    ensures SameConversation(p, q) <==> KeyOf(p) == KeyOf(q)
    ensures SameDirection(p, q) <==> KeyOf(p) == KeyOf(q) && DirectionOf(p) == DirectionOf(q)
    ensures OtherDirection(p, q) <==> KeyOf(p) == KeyOf(q) && DirectionOf(p) != DirectionOf(q)
  {
  }

  /** Event `j` is the next one of the conversation of event `i`. */
  ghost predicate Next(events: seq<Event>, i: nat, j: nat) {
    && i < j < |events| && SameConversation(events[i].pkt, events[j].pkt)
    && forall m :: i < m < j ==> !SameConversation(events[i].pkt, events[m].pkt)
  }

  // ----- the state machine

  /** Three packets on one flow, whatever its state: SYN one way, SYN and ACK
      the other way, and a plain packet the first way again. It establishes
      the connection exactly if its sequence number follows that of the SYN. */
  lemma Handshake(f: Flow, idx: bool, syn: Packet, reply: Packet, plain: Packet)
    requires f.key.proto == 6
    requires IsSyn(syn.tcpFlags) && !IsAck(syn.tcpFlags) && !IsFin(syn.tcpFlags) && !IsRst(syn.tcpFlags)
    requires IsSyn(reply.tcpFlags) && IsAck(reply.tcpFlags) && !IsFin(reply.tcpFlags) && !IsRst(reply.tcpFlags)
    requires !IsSyn(plain.tcpFlags) && !IsFin(plain.tcpFlags) && !IsRst(plain.tcpFlags)
    ensures var f1 := EvaluateTcpFlags(f, syn, idx);
            var f2 := EvaluateTcpFlags(f1, reply, !idx);
            var f3 := EvaluateTcpFlags(f2, plain, idx);
            && f1.tcpFlags.Get(idx) == 2 && f2.tcpFlags.Get(idx) == 2 && f2.tcpFlags.Get(!idx) == 18
            && (plain.tcpSeq == (syn.tcpSeq + 1) % 4294967296 ==> f3.tcpFlags == Pair(0, 0))
            && (plain.tcpSeq != (syn.tcpSeq + 1) % 4294967296 ==> f3.tcpFlags == f2.tcpFlags)
  {
    AfterSynPacket(f, idx, syn);
    var f1 := EvaluateTcpFlags(f, syn, idx);
    AfterReply(f1, idx, reply);
    AfterPlain(EvaluateTcpFlags(f1, reply, !idx), idx, plain);
  }

  lemma FlagFacts()
    ensures 2 as bv8 & 2 != 0 && 2 as bv8 & 16 == 0 && 18 as bv8 & 2 != 0 && 18 as bv8 & 16 != 0
    ensures 2 as bv8 | 16 == 18 && 2 as bv8 & 1 == 0 && 2 as bv8 & 4 == 0 && 18 as bv8 & 1 == 0 && 18 as bv8 & 4 == 0
  {
  }

  lemma AfterSynPacket(f: Flow, idx: bool, syn: Packet)
    requires f.key.proto == 6
    requires IsSyn(syn.tcpFlags) && !IsAck(syn.tcpFlags) && !IsFin(syn.tcpFlags) && !IsRst(syn.tcpFlags)
    ensures var f1 := EvaluateTcpFlags(f, syn, idx);
            f1.tcpFlags.Get(idx) == 2 && f1.lastTcpSeq == syn.tcpSeq && f1.last == f.last && f1.key == f.key
  {
    FlagFacts();
  }

  lemma AfterReply(f: Flow, idx: bool, reply: Packet)
    requires f.key.proto == 6 && f.tcpFlags.Get(idx) == 2
    requires IsSyn(reply.tcpFlags) && IsAck(reply.tcpFlags) && !IsFin(reply.tcpFlags) && !IsRst(reply.tcpFlags)
    ensures var f1 := EvaluateTcpFlags(f, reply, !idx);
            && f1.tcpFlags.Get(idx) == 2 && f1.tcpFlags.Get(!idx) == 18
            && f1.lastTcpSeq == f.lastTcpSeq && f1.last == f.last && f1.key == f.key
  {
    FlagFacts();
  }

  lemma AfterPlain(f: Flow, idx: bool, plain: Packet)
    requires f.key.proto == 6 && f.tcpFlags.Get(idx) == 2 && f.tcpFlags.Get(!idx) == 18
    requires !IsSyn(plain.tcpFlags) && !IsFin(plain.tcpFlags) && !IsRst(plain.tcpFlags)
    ensures var f1 := EvaluateTcpFlags(f, plain, idx);
            && (plain.tcpSeq == (f.lastTcpSeq + 1) % 4294967296 ==> f1.tcpFlags == Pair(0, 0))
            && (plain.tcpSeq != (f.lastTcpSeq + 1) % 4294967296 ==> f1.tcpFlags == f.tcpFlags)
            && f1.last == f.last && f1.key == f.key
  {
    FlagFacts();
  }

  /** How long a direction lasts after flags that name a phase. */
  function PhaseLifetime(flags: bv8): nat {
    if IsRst(flags) then 10 else if IsFin(flags) then 30 else 60
  }

  predicate NamesPhase(flags: bv8) {
    IsSyn(flags) || IsFin(flags) || IsRst(flags)
  }

  /** A packet with SYN, FIN or RST, whatever the state of the flow. */
  lemma AfterFlags(f: Flow, idx: bool, pkt: Packet)
    requires f.key.proto == 6 && NamesPhase(pkt.tcpFlags)
    ensures var flags := EvaluateTcpFlags(f, pkt, idx).tcpFlags;
            && NamesPhase(flags.Get(idx)) && PhaseLifetime(flags.Get(idx)) == PhaseLifetime(pkt.tcpFlags)
            && (IsFin(pkt.tcpFlags) || IsRst(pkt.tcpFlags) ==>
                  NamesPhase(flags.Get(!idx)) && PhaseLifetime(flags.Get(!idx)) == PhaseLifetime(pkt.tcpFlags))
  {
    FlagFacts();
  }

  /** Expiry of a direction in a phase, established, or of another protocol. */
  lemma ExpiryOfPhase(cfg: Config, now: nat, f: Flow, idx: bool)
    ensures f.key.proto == 6 && NamesPhase(f.tcpFlags.Get(idx)) ==>
              (ExpiredUni(cfg, now, f, idx) <==> now > f.last.Get(idx) + PhaseLifetime(f.tcpFlags.Get(idx)))
    ensures f.key.proto == 6 && f.tcpFlags.Get(idx) == 0 ==>
              (ExpiredUni(cfg, now, f, idx) <==> now > f.last.Get(idx) + cfg.tcpEstablished)
    ensures f.key.proto != 6 ==> (ExpiredUni(cfg, now, f, idx) <==> now > f.last.Get(idx) + cfg.generic)
  {
  }

  // ----- a flow between two packets of its conversation

  /** The flow of event `i` after it. */
  ghost predicate FlowAfter(events: seq<Event>, records: seq<Record>, i: nat, f: Flow) {
    && i < |events| == |records|
    && KeyOf(events[i].pkt) in records[i].after && records[i].after[KeyOf(events[i].pkt)] == f
  }

  /** Until the next packet of its conversation a flow stays as it is, or is
      forgotten after it has expired. */
  lemma {:induction false} FlowKept(cfg: Config, events: seq<Event>, records: seq<Record>, i: nat, j: nat, f: Flow)
    requires Run(cfg, events, records) && ClockMonotone(events) && FlowAfter(events, records, i, f)
    requires i < j < |events| && forall m :: i < m < j ==> KeyOf(events[m].pkt) != KeyOf(events[i].pkt)
    ensures var k := KeyOf(events[i].pkt); var v := records[j].before;
            if k in v then v[k] == f else Expired(cfg, events[j].now, f)
  {
    hide Expired, ExpiredUni, Touched, Created;
    if i + 1 < j {
      FlowKept(cfg, events, records, i, j - 1, f);
      assert RecordOf(cfg, events[j - 1], records[j - 1]);
      StaysExpired(cfg, events[j - 1].now, events[j].now, f);
    }
  }

  lemma StaysExpired(cfg: Config, now: nat, later: nat, f: Flow)
    requires now <= later
    ensures Expired(cfg, now, f) ==> Expired(cfg, later, f)
  {
    if Expired(cfg, now, f) {
      ExpiryIsFinal(cfg, now, later, f, false);
      ExpiryIsFinal(cfg, now, later, f, true);
    }
  }

  /** The state a packet leaves: that of a flow kept, or of a new one. */
  ghost predicate Left(cfg: Config, e: Event, f: Flow, g: Flow) {
    || g == Touched(cfg, f, e.now, e.pkt, DirectionOf(e.pkt))
    || (Expired(cfg, e.now, f) && g == Created(e.now, e.pkt))
  }

  /** The next packet of the conversation is new exactly if its direction has
      expired by then. */
  lemma NextPacket(cfg: Config, events: seq<Event>, records: seq<Record>, i: nat, j: nat, f: Flow) returns (g: Flow)
    requires Run(cfg, events, records) && ClockMonotone(events) && NeverSkips(events, records)
    requires FlowAfter(events, records, i, f) && Next(events, i, j)
    ensures records[j].newFlow <==> ExpiredUni(cfg, events[j].now, f, DirectionOf(events[j].pkt))
    ensures FlowAfter(events, records, j, g) && Left(cfg, events[j], f, g)
  {
    hide ExpiredUni, Touched, Created;
    var k := KeyOf(events[j].pkt);
    ConversationHasKey(events[i].pkt, events[j].pkt);
    forall m | i < m < j ensures KeyOf(events[m].pkt) != KeyOf(events[i].pkt) {
      ConversationHasKey(events[i].pkt, events[m].pkt);
    }
    FlowKept(cfg, events, records, i, j, f);
    assert RecordOf(cfg, events[j], records[j]);
    g := records[j].after[k];
  }

  lemma {:induction false} RunKeyed(cfg: Config, events: seq<Event>, records: seq<Record>, n: nat)
    requires Run(cfg, events, records) && n < |events|
    ensures Keyed(records[n].before)
  {
    hide ExpiredUni, Expired, Touched, Created;
    if n > 0 {
      RunKeyed(cfg, events, records, n - 1);
      var e, r := events[n - 1], records[n - 1];
      assert RecordOf(cfg, e, r);
      CreatedIsKeyed(e.now, e.pkt);
      if KeyOf(e.pkt) in r.pruned {
        TouchedIsKeyed(cfg, r.pruned[KeyOf(e.pkt)], e.now, e.pkt, DirectionOf(e.pkt));
      }
    }
  }

  lemma TouchedIsKeyed(cfg: Config, f: Flow, now: nat, pkt: Packet, idx: bool)
    ensures Touched(cfg, f, now, pkt, idx).key == f.key
  {
    EvaluateKeepsPlace(f, pkt, idx);
    EvaluateKeepsPlace(Cleared(f, idx), pkt, idx);
  }

  lemma CreatedIsKeyed(now: nat, pkt: Packet)
    ensures Created(now, pkt).key == KeyOf(pkt)
  {
    EvaluateKeepsPlace(Flow(KeyOf(pkt), Pair(0, 0), Pair(0, 0), 0), pkt, DirectionOf(pkt));
  }

  /** A packet leaves its flow in the table, seen by its direction. */
  lemma FlowThere(cfg: Config, events: seq<Event>, records: seq<Record>, i: nat) returns (f: Flow, g: Flow)
    requires Run(cfg, events, records) && NeverSkips(events, records) && i < |events|
    ensures FlowAfter(events, records, i, f) && g.key == KeyOf(events[i].pkt)
    ensures f == Seen(g, events[i].now, events[i].pkt, DirectionOf(events[i].pkt))
  {
    RunKeyed(cfg, events, records, i);
    hide ExpiredUni, Seen;
    assert RecordOf(cfg, events[i], records[i]);
    var k, idx := KeyOf(events[i].pkt), DirectionOf(events[i].pkt);
    f := records[i].after[k];
    if k in records[i].pruned {
      var was := records[i].pruned[k];
      g := if ExpiredUni(cfg, events[i].now, was, idx) then Cleared(was, idx) else was;
    } else {
      g := Flow(k, Pair(0, 0), Pair(0, 0), 0);
    }
  }

  lemma SeenIs(g: Flow, now: nat, pkt: Packet, idx: bool)
    ensures var f, e := Seen(g, now, pkt, idx), EvaluateTcpFlags(g, pkt, idx);
            && f.tcpFlags == e.tcpFlags && f.lastTcpSeq == e.lastTcpSeq && f.key == g.key
            && f.last.Get(idx) == now && f.last.Get(!idx) == g.last.Get(!idx)
  {
    EvaluateKeepsPlace(g, pkt, idx);
  }

  /** What touching leaves of the other direction and of the flow. */
  lemma TouchedIs(cfg: Config, f: Flow, now: nat, pkt: Packet, idx: bool) returns (g: Flow)
    ensures Touched(cfg, f, now, pkt, idx) == Seen(g, now, pkt, idx)
    ensures g.key == f.key && g.lastTcpSeq == f.lastTcpSeq
    ensures g.tcpFlags.Get(!idx) == f.tcpFlags.Get(!idx) && g.last.Get(!idx) == f.last.Get(!idx)
    ensures !ExpiredUni(cfg, now, f, idx) ==> g == f
  {
    hide Seen, ExpiredUni;
    g := if ExpiredUni(cfg, now, f, idx) then Cleared(f, idx) else f;
  }

  lemma AliveIsKept(cfg: Config, e: Event, f: Flow, g: Flow, idx: bool)
    requires Left(cfg, e, f, g) && !ExpiredUni(cfg, e.now, f, idx)
    ensures g == Touched(cfg, f, e.now, e.pkt, DirectionOf(e.pkt))
  {
  }

  // ----- runs in which no packet is skipped

  ghost predicate GoodRun(cfg: Config, events: seq<Event>, records: seq<Record>) {
    Run(cfg, events, records) && ClockMonotone(events) && NeverSkips(events, records)
  }

  /** After SYN alone a direction lasts 60 seconds, after FIN 30, after RST
      10. */
  lemma AnswerAfterFlags(cfg: Config, events: seq<Event>, records: seq<Record>, i: nat, j: nat)
    requires GoodRun(cfg, events, records) && Next(events, i, j)
    requires SameDirection(events[i].pkt, events[j].pkt)
    requires events[i].pkt.proto == 6 && NamesPhase(events[i].pkt.tcpFlags)
    ensures records[j].newFlow <==> events[j].now > events[i].now + PhaseLifetime(events[i].pkt.tcpFlags)
  {
    var pkt, idx := events[i].pkt, DirectionOf(events[i].pkt);
    ConversationHasKey(pkt, events[j].pkt);
    var f, g := FlowThere(cfg, events, records, i);
    hide Run, Seen, ExpiredUni, EvaluateTcpFlags, Normalize, NamesPhase, PhaseLifetime;
    AfterFlags(g, idx, pkt);
    SeenIs(g, events[i].now, pkt, idx);
    ExpiryOfPhase(cfg, events[j].now, f, idx);
    var left := NextPacket(cfg, events, records, i, j, f);
  }

  /** Packets without SYN, FIN and RST. */
  predicate IsPlain(flags: bv8) {
    !IsSyn(flags) && !IsFin(flags) && !IsRst(flags)
  }

  lemma PlainOnFresh(f: Flow, idx: bool, pkt: Packet)
    requires f.key.proto == 6 && f.tcpFlags.Get(idx) == 0 && IsPlain(pkt.tcpFlags)
    ensures EvaluateTcpFlags(f, pkt, idx).tcpFlags.Get(idx) == 0
  {
  }

  /** A packet that is new has a flow with nothing remembered of its
      direction. */
  lemma NewIsFresh(cfg: Config, events: seq<Event>, records: seq<Record>, i: nat) returns (f: Flow, g: Flow)
    requires Run(cfg, events, records) && NeverSkips(events, records) && i < |events| && records[i].newFlow
    ensures FlowAfter(events, records, i, f) && g.key == KeyOf(events[i].pkt)
    ensures g.tcpFlags.Get(DirectionOf(events[i].pkt)) == 0
    ensures f == Seen(g, events[i].now, events[i].pkt, DirectionOf(events[i].pkt))
  {
    RunKeyed(cfg, events, records, i);
    hide ExpiredUni, Seen;
    assert RecordOf(cfg, events[i], records[i]);
    var k, idx := KeyOf(events[i].pkt), DirectionOf(events[i].pkt);
    f := records[i].after[k];
    g := if k in records[i].pruned then Cleared(records[i].pruned[k], idx) else Flow(k, Pair(0, 0), Pair(0, 0), 0);
  }

  /** A new direction that starts with a plain packet lasts as long as an
      established connection. */
  lemma AnswerAfterFresh(cfg: Config, events: seq<Event>, records: seq<Record>, i: nat, j: nat)
    requires GoodRun(cfg, events, records) && Next(events, i, j)
    requires SameDirection(events[i].pkt, events[j].pkt)
    requires events[i].pkt.proto == 6 && IsPlain(events[i].pkt.tcpFlags) && records[i].newFlow
    ensures records[j].newFlow <==> events[j].now > events[i].now + cfg.tcpEstablished
  {
    var pkt, idx := events[i].pkt, DirectionOf(events[i].pkt);
    ConversationHasKey(pkt, events[j].pkt);
    var f, g := NewIsFresh(cfg, events, records, i);
    hide Run, Seen, ExpiredUni, EvaluateTcpFlags, Normalize;
    PlainOnFresh(g, idx, pkt);
    SeenIs(g, events[i].now, pkt, idx);
    ExpiryOfPhase(cfg, events[j].now, f, idx);
    var left := NextPacket(cfg, events, records, i, j, f);
  }

  /** The phase is that of a SYN without ACK, or of FIN or RST without SYN. */
  predicate NamesOnePhase(flags: bv8) {
    NamesPhase(flags) && (IsSyn(flags) ==> !IsAck(flags) && !IsFin(flags) && !IsRst(flags))
  }

  lemma PlainKeepsPhase(f: Flow, idx: bool, named: Packet, plain: Packet, g: Flow)
    requires f.key.proto == 6 && NamesOnePhase(named.tcpFlags) && IsPlain(plain.tcpFlags)
    requires IsSyn(named.tcpFlags) ==> plain.tcpSeq != (named.tcpSeq + 1) % 4294967296
    requires var f1 := EvaluateTcpFlags(f, named, idx);
             g.key == f.key && g.tcpFlags == f1.tcpFlags && g.lastTcpSeq == f1.lastTcpSeq
    ensures var flags := EvaluateTcpFlags(g, plain, idx).tcpFlags.Get(idx);
            NamesPhase(flags) && PhaseLifetime(flags) == PhaseLifetime(named.tcpFlags)
  {
    FlagFacts();
  }

  /** A plain packet in time prolongs the phase of its direction. */
  lemma AnswerAfterPlain(cfg: Config, events: seq<Event>, records: seq<Record>, h: nat, i: nat, j: nat)
    requires GoodRun(cfg, events, records) && Next(events, h, i) && Next(events, i, j)
    requires SameDirection(events[h].pkt, events[i].pkt) && SameDirection(events[i].pkt, events[j].pkt)
    requires events[h].pkt.proto == 6 && NamesOnePhase(events[h].pkt.tcpFlags) && IsPlain(events[i].pkt.tcpFlags)
    requires IsSyn(events[h].pkt.tcpFlags) ==> events[i].pkt.tcpSeq != (events[h].pkt.tcpSeq + 1) % 4294967296
    requires events[i].now <= events[h].now + PhaseLifetime(events[h].pkt.tcpFlags)
    ensures records[j].newFlow <==> events[j].now > events[i].now + PhaseLifetime(events[h].pkt.tcpFlags)
  {
    var idx := DirectionOf(events[h].pkt);
    ConversationHasKey(events[h].pkt, events[i].pkt);
    ConversationHasKey(events[i].pkt, events[j].pkt);
    var fh, gh := FlowThere(cfg, events, records, h);
    hide Run, NeverSkips, ClockMonotone, Seen, Touched, ExpiredUni, EvaluateTcpFlags, Normalize, Left, Next,
         NamesPhase, PhaseLifetime;
    AfterNamed(gh, idx, events[h].pkt);
    SeenIs(gh, events[h].now, events[h].pkt, idx);
    ExpiryOfPhase(cfg, events[i].now, fh, idx);
    var fi := NextPacket(cfg, events, records, h, i, fh);
    AliveIsKept(cfg, events[i], fh, fi, idx);
    var gi := TouchedIs(cfg, fh, events[i].now, events[i].pkt, idx);
    PlainKeepsPhase(gh, idx, events[h].pkt, events[i].pkt, fh);
    SeenIs(fh, events[i].now, events[i].pkt, idx);
    ExpiryOfPhase(cfg, events[j].now, fi, idx);
    var left := NextPacket(cfg, events, records, i, j, fi);
  }

  lemma AfterNamed(f: Flow, idx: bool, pkt: Packet)
    requires f.key.proto == 6 && NamesOnePhase(pkt.tcpFlags)
    ensures var flags := EvaluateTcpFlags(f, pkt, idx).tcpFlags.Get(idx);
            NamesPhase(flags) && PhaseLifetime(flags) == PhaseLifetime(pkt.tcpFlags)
  {
    AfterFlags(f, idx, pkt);
  }

  ghost predicate IsHandshake(a: Packet, b: Packet, c: Packet) {
    && a.proto == 6 && OtherDirection(a, b) && SameDirection(a, c)
    && IsSyn(a.tcpFlags) && !IsAck(a.tcpFlags) && !IsFin(a.tcpFlags) && !IsRst(a.tcpFlags)
    && IsSyn(b.tcpFlags) && IsAck(b.tcpFlags) && !IsFin(b.tcpFlags) && !IsRst(b.tcpFlags)
    && !IsSyn(c.tcpFlags) && !IsFin(c.tcpFlags) && !IsRst(c.tcpFlags)
  }

  lemma HandshakeDirections(a: Packet, b: Packet, c: Packet)
    requires IsHandshake(a, b, c)
    ensures KeyOf(a) == KeyOf(b) == KeyOf(c) && KeyOf(a).proto == 6
    ensures DirectionOf(b) == !DirectionOf(a) && DirectionOf(c) == DirectionOf(a)
  {
  }

  /** The flow after the three packets of a handshake within 60 seconds. */
  lemma FlowAfterHandshake(cfg: Config, events: seq<Event>, records: seq<Record>, a: nat, b: nat, c: nat)
    returns (f: Flow)
    requires GoodRun(cfg, events, records) && Next(events, a, b) && Next(events, b, c)
    requires IsHandshake(events[a].pkt, events[b].pkt, events[c].pkt) && events[c].now <= events[a].now + 60
    ensures var idx := DirectionOf(events[a].pkt);
            && FlowAfter(events, records, c, f) && f.key.proto == 6
            && f.last.Get(idx) == events[c].now && f.last.Get(!idx) == events[b].now
            && (events[c].pkt.tcpSeq == (events[a].pkt.tcpSeq + 1) % 4294967296 ==> f.tcpFlags == Pair(0, 0))
            && (events[c].pkt.tcpSeq != (events[a].pkt.tcpSeq + 1) % 4294967296 ==>
                  f.tcpFlags.Get(idx) == 2 && f.tcpFlags.Get(!idx) == 18)
  {
    var idx := DirectionOf(events[a].pkt);
    HandshakeDirections(events[a].pkt, events[b].pkt, events[c].pkt);
    FlagFacts();
    var fa, ga := FlowThere(cfg, events, records, a);
    assert events[b].now <= events[c].now;
    hide Run, NeverSkips, ClockMonotone, Seen, Touched, ExpiredUni, EvaluateTcpFlags, Normalize, Left, Next;
    AfterSynPacket(ga, idx, events[a].pkt);
    SeenIs(ga, events[a].now, events[a].pkt, idx);
    ExpiryOfPhase(cfg, events[b].now, fa, idx);
    var fb := NextPacket(cfg, events, records, a, b, fa);
    AliveIsKept(cfg, events[b], fa, fb, idx);
    var gb := TouchedIs(cfg, fa, events[b].now, events[b].pkt, !idx);
    AfterReply(gb, idx, events[b].pkt);
    SeenIs(gb, events[b].now, events[b].pkt, !idx);
    ExpiryOfPhase(cfg, events[c].now, fb, idx);
    f := NextPacket(cfg, events, records, b, c, fb);
    AliveIsKept(cfg, events[c], fb, f, idx);
    var gc := TouchedIs(cfg, fb, events[c].now, events[c].pkt, idx);
    AfterPlain(fb, idx, events[c].pkt);
    SeenIs(fb, events[c].now, events[c].pkt, idx);
  }

  /** After a handshake a direction lasts as long as configured, provided the
      third packet carries the sequence number that follows the SYN; else it
      lasts 60 seconds. */
  lemma AnswerAfterHandshake(cfg: Config, events: seq<Event>, records: seq<Record>, a: nat, b: nat, c: nat, d: nat)
    requires GoodRun(cfg, events, records) && Next(events, a, b) && Next(events, b, c) && Next(events, c, d)
    requires IsHandshake(events[a].pkt, events[b].pkt, events[c].pkt) && events[c].now <= events[a].now + 60
    ensures AnsweredAfter(cfg, events, a, b, c, d, records[d].newFlow)
  {
    var f := FlowAfterHandshake(cfg, events, records, a, b, c);
    FlagFacts();
    HandshakeDirections(events[a].pkt, events[b].pkt, events[c].pkt);
    ConversationHasKey(events[c].pkt, events[d].pkt);
    var idx := DirectionOf(events[d].pkt);
    ExpiryOfPhase(cfg, events[d].now, f, idx);
    var left := NextPacket(cfg, events, records, c, d, f);
  }

  lemma {:induction false} RunMortal(cfg: Config, events: seq<Event>, records: seq<Record>, n: nat)
    requires Run(cfg, events, records) && n < |events|
    ensures forall k :: k in records[n].before ==> MortalFlow(records[n].before[k])
    ensures forall k :: k in records[n].after ==> MortalFlow(records[n].after[k])
  {
    hide ExpiredUni, Expired, Touched, Created, MortalFlow;
    var e, r := events[n], records[n];
    if n == 0 {
      assert r.before == map[];
    } else {
      RunMortal(cfg, events, records, n - 1);
      assert r.before == records[n - 1].after;
    }
    assert RecordOf(cfg, e, r);
    assert forall k :: k in r.pruned ==> k in r.before && r.pruned[k] == r.before[k];
    assert forall k :: k in r.kept ==> k in r.pruned && r.kept[k] == r.pruned[k];
    CreatedIsMortal(e.now, e.pkt);
    if KeyOf(e.pkt) in r.pruned {
      TouchedIsMortal(cfg, r.pruned[KeyOf(e.pkt)], e.now, e.pkt, DirectionOf(e.pkt));
    }
  }

  lemma MortalLasts(cfg: Config, now: nat, f: Flow, idx: bool)
    requires MortalFlow(f) && f.key.proto == 6
    requires now <= f.last.Get(idx) + 10 && now <= f.last.Get(idx) + cfg.tcpEstablished
    ensures !ExpiredUni(cfg, now, f, idx)
  {
  }

  /** FIN or RST ends both directions: the other one, last seen at most 10
      seconds before, then lasts 30 or 10 seconds. */
  lemma AnswerAfterClose(cfg: Config, events: seq<Event>, records: seq<Record>, h: nat, i: nat, j: nat)
    requires GoodRun(cfg, events, records) && Next(events, h, i) && Next(events, i, j)
    requires OtherDirection(events[h].pkt, events[i].pkt) && SameDirection(events[h].pkt, events[j].pkt)
    requires events[i].pkt.proto == 6 && (IsFin(events[i].pkt.tcpFlags) || IsRst(events[i].pkt.tcpFlags))
    requires events[i].now <= events[h].now + 10 && events[i].now <= events[h].now + cfg.tcpEstablished
    ensures records[j].newFlow <==> events[j].now > events[h].now + PhaseLifetime(events[i].pkt.tcpFlags)
  {
    var idx := DirectionOf(events[h].pkt);
    ConversationHasKey(events[h].pkt, events[i].pkt);
    ConversationHasKey(events[h].pkt, events[j].pkt);
    var fh, gh := FlowThere(cfg, events, records, h);
    RunMortal(cfg, events, records, h);
    hide Run, NeverSkips, ClockMonotone, Seen, Touched, ExpiredUni, EvaluateTcpFlags, Normalize, Left, Next, MortalFlow,
         NamesPhase, PhaseLifetime;
    SeenIs(gh, events[h].now, events[h].pkt, idx);
    MortalLasts(cfg, events[i].now, fh, idx);
    var fi := NextPacket(cfg, events, records, h, i, fh);
    AliveIsKept(cfg, events[i], fh, fi, idx);
    var gi := TouchedIs(cfg, fh, events[i].now, events[i].pkt, !idx);
    SeenIs(gi, events[i].now, events[i].pkt, !idx);
    ClosesBoth(gi, !idx, events[i].pkt);
    ExpiryOfPhase(cfg, events[j].now, fi, idx);
    var left := NextPacket(cfg, events, records, i, j, fi);
  }

  lemma ClosesBoth(f: Flow, idx: bool, pkt: Packet)
    requires f.key.proto == 6 && (IsFin(pkt.tcpFlags) || IsRst(pkt.tcpFlags))
    ensures var flags := EvaluateTcpFlags(f, pkt, idx).tcpFlags.Get(!idx);
            NamesPhase(flags) && PhaseLifetime(flags) == PhaseLifetime(pkt.tcpFlags)
  {
    AfterFlags(f, idx, pkt);
  }

  // ----- protocols other than TCP

  /** No packet of the same direction within the lifetime. */
  ghost predicate Fresh(cfg: Config, events: seq<Event>, n: nat)
    requires n < |events|
  {
    forall i :: 0 <= i < n && SameDirection(events[i].pkt, events[n].pkt) ==>
      events[n].now > events[i].now + cfg.generic
  }

  /** When a direction was last seen by the table that forgets nothing. */
  lemma {:induction false} LastSeenIs(cfg: Config, events: seq<Event>, n: nat, k: FlowKey, idx: bool)
    requires n <= |events| && ClockMonotone(events)
    ensures var w := IdealView(cfg, events, n);
            && Keyed(w)
            && (forall i :: 0 <= i < n && KeyOf(events[i].pkt) == k && DirectionOf(events[i].pkt) == idx ==>
                  events[i].now <= LastSeen(w, k, idx))
            && (LastSeen(w, k, idx) == 0 ||
                exists i :: 0 <= i < n && KeyOf(events[i].pkt) == k && DirectionOf(events[i].pkt) == idx &&
                  events[i].now == LastSeen(w, k, idx))
  {
    hide Normalize;
    if n > 0 {
      LastSeenIs(cfg, events, n - 1, k, idx);
      SeenAt(cfg, IdealView(cfg, events, n - 1), events[n - 1].now, events[n - 1].pkt, k, idx);
    }
  }

  /** The table that forgets nothing answers by the packets before. */
  lemma IdealIsFresh(cfg: Config, events: seq<Event>, n: nat)
    requires n < |events| && ClockMonotone(events)
    requires events[n].pkt.proto != 6 && events[n].now > cfg.generic
    ensures IdealAnswer(cfg, IdealView(cfg, events, n), events[n]) <==> Fresh(cfg, events, n)
  {
    var w, e := IdealView(cfg, events, n), events[n];
    var k, idx := KeyOf(e.pkt), DirectionOf(e.pkt);
    LastSeenIs(cfg, events, n, k, idx);
    AnswerFromLastSeen(cfg, w, e.now, e.pkt);
    forall i | 0 <= i < n
      ensures SameDirection(events[i].pkt, e.pkt) <==> KeyOf(events[i].pkt) == k && DirectionOf(events[i].pkt) == idx
    {
      ConversationHasKey(events[i].pkt, e.pkt);
    }
    hide IdealView, Normalize;
  }

  // ----- all answers of a run

  /** A packet with SYN, FIN or RST, and the next one of its direction. */
  ghost predicate IsPhase(events: seq<Event>, i: nat, j: nat) {
    && Next(events, i, j) && SameDirection(events[i].pkt, events[j].pkt)
    && events[i].pkt.proto == 6 && NamesPhase(events[i].pkt.tcpFlags)
  }

  /** The three packets of a handshake within 60 seconds. */
  ghost predicate Opens(events: seq<Event>, a: nat, b: nat, c: nat) {
    && Next(events, a, b) && Next(events, b, c)
    && IsHandshake(events[a].pkt, events[b].pkt, events[c].pkt) && events[c].now <= events[a].now + 60
  }

  /** A packet, FIN or RST by the other end soon after, and the next packet of
      the first direction. */
  ghost predicate Closes(cfg: Config, events: seq<Event>, h: nat, i: nat, j: nat) {
    && Next(events, h, i) && Next(events, i, j)
    && OtherDirection(events[h].pkt, events[i].pkt) && SameDirection(events[h].pkt, events[j].pkt)
    && events[i].pkt.proto == 6 && (IsFin(events[i].pkt.tcpFlags) || IsRst(events[i].pkt.tcpFlags))
    && events[i].now <= events[h].now + 10 && events[i].now <= events[h].now + cfg.tcpEstablished
  }

  ghost predicate PhaseAnswers(events: seq<Event>, answers: seq<bool>) {
    |answers| == |events| &&
    forall i: nat, j: nat :: IsPhase(events, i, j) ==>
      (answers[j] <==> events[j].now > events[i].now + PhaseLifetime(events[i].pkt.tcpFlags))
  }

  /** What packet `d` is answered after a handshake. */
  ghost predicate AnsweredAfter(cfg: Config, events: seq<Event>, a: nat, b: nat, c: nat, d: nat, newFlow: bool)
    requires a < |events| && b < |events| && c < |events| && d < |events|
  {
    var last := if SameDirection(events[c].pkt, events[d].pkt) then events[c].now else events[b].now;
    var follows := events[c].pkt.tcpSeq == (events[a].pkt.tcpSeq + 1) % 4294967296;
    newFlow <==> events[d].now > last + if follows then cfg.tcpEstablished else 60
  }

  ghost predicate HandshakeAnswers(cfg: Config, events: seq<Event>, answers: seq<bool>) {
    |answers| == |events| &&
    forall a: nat, b: nat, c: nat, d: nat :: Opens(events, a, b, c) && Next(events, c, d) ==>
      AnsweredAfter(cfg, events, a, b, c, d, answers[d])
  }

  ghost predicate CloseAnswers(cfg: Config, events: seq<Event>, answers: seq<bool>) {
    |answers| == |events| &&
    forall h: nat, i: nat, j: nat :: Closes(cfg, events, h, i, j) ==>
      (answers[j] <==> events[j].now > events[h].now + PhaseLifetime(events[i].pkt.tcpFlags))
  }

  ghost predicate FreshAnswers(cfg: Config, events: seq<Event>, answers: seq<bool>) {
    |answers| == |events| &&
    forall i: nat, j: nat :: StartsPlain(events, i, j) && answers[i] ==>
      (answers[j] <==> events[j].now > events[i].now + cfg.tcpEstablished)
  }

  /** A plain packet and the next one of its direction. */
  ghost predicate StartsPlain(events: seq<Event>, i: nat, j: nat) {
    && Next(events, i, j) && SameDirection(events[i].pkt, events[j].pkt)
    && events[i].pkt.proto == 6 && IsPlain(events[i].pkt.tcpFlags)
  }

  /** A packet that names a phase, a plain one in time, and the next one, all
      of one direction. */
  ghost predicate Prolongs(events: seq<Event>, h: nat, i: nat, j: nat) {
    && Next(events, h, i) && Next(events, i, j)
    && SameDirection(events[h].pkt, events[i].pkt) && SameDirection(events[i].pkt, events[j].pkt)
    && events[h].pkt.proto == 6 && NamesOnePhase(events[h].pkt.tcpFlags) && IsPlain(events[i].pkt.tcpFlags)
    && (IsSyn(events[h].pkt.tcpFlags) ==> events[i].pkt.tcpSeq != (events[h].pkt.tcpSeq + 1) % 4294967296)
    && events[i].now <= events[h].now + PhaseLifetime(events[h].pkt.tcpFlags)
  }

  ghost predicate ProlongAnswers(events: seq<Event>, answers: seq<bool>) {
    |answers| == |events| &&
    forall h: nat, i: nat, j: nat :: Prolongs(events, h, i, j) ==>
      (answers[j] <==> events[j].now > events[i].now + PhaseLifetime(events[h].pkt.tcpFlags))
  }

  ghost predicate GenericAnswers(cfg: Config, events: seq<Event>, answers: seq<bool>) {
    |answers| == |events| &&
    forall n :: 0 <= n < |events| && events[n].pkt.proto != 6 ==> (answers[n] <==> Fresh(cfg, events, n))
  }

  function AnswersOf(records: seq<Record>): seq<bool> {
    seq(|records|, n requires 0 <= n < |records| => records[n].newFlow)
  }

  /** A run in which no packet is skipped gives these answers. */
  lemma AnswersExactly(cfg: Config, events: seq<Event>, records: seq<Record>)
    requires GoodRun(cfg, events, records)
    ensures var answers := AnswersOf(records);
            && PhaseAnswers(events, answers) && HandshakeAnswers(cfg, events, answers)
            && CloseAnswers(cfg, events, answers) && FreshAnswers(cfg, events, answers)
            && ProlongAnswers(events, answers)
            && ((forall i :: 0 <= i < |events| ==> events[i].now > cfg.generic) ==>
                  GenericAnswers(cfg, events, answers))
  {
    PhasesRight(cfg, events, records);
    HandshakesRight(cfg, events, records);
    ClosesRight(cfg, events, records);
    FreshRight(cfg, events, records);
    ProlongsRight(cfg, events, records);
    hide PhaseAnswers, HandshakeAnswers, CloseAnswers, FreshAnswers, ProlongAnswers;
    if forall i :: 0 <= i < |events| ==> events[i].now > cfg.generic {
      GenericRight(cfg, events, records);
    }
  }

  lemma PhasesRight(cfg: Config, events: seq<Event>, records: seq<Record>)
    requires GoodRun(cfg, events, records)
    ensures PhaseAnswers(events, AnswersOf(records))
  {
    forall i: nat, j: nat | IsPhase(events, i, j)
      ensures AnswersOf(records)[j] <==> events[j].now > events[i].now + PhaseLifetime(events[i].pkt.tcpFlags)
    {
      AnswerAfterFlags(cfg, events, records, i, j);
    }
  }

  lemma HandshakesRight(cfg: Config, events: seq<Event>, records: seq<Record>)
    requires GoodRun(cfg, events, records)
    ensures HandshakeAnswers(cfg, events, AnswersOf(records))
  {
    forall a: nat, b: nat, c: nat, d: nat | Opens(events, a, b, c) && Next(events, c, d)
      ensures AnsweredAfter(cfg, events, a, b, c, d, AnswersOf(records)[d])
    {
      AnswerAfterHandshake(cfg, events, records, a, b, c, d);
    }
  }

  lemma ClosesRight(cfg: Config, events: seq<Event>, records: seq<Record>)
    requires GoodRun(cfg, events, records)
    ensures CloseAnswers(cfg, events, AnswersOf(records))
  {
    forall h: nat, i: nat, j: nat | Closes(cfg, events, h, i, j)
      ensures AnswersOf(records)[j] <==> events[j].now > events[h].now + PhaseLifetime(events[i].pkt.tcpFlags)
    {
      AnswerAfterClose(cfg, events, records, h, i, j);
    }
  }

  lemma FreshRight(cfg: Config, events: seq<Event>, records: seq<Record>)
    requires GoodRun(cfg, events, records)
    ensures FreshAnswers(cfg, events, AnswersOf(records))
  {
    forall i: nat, j: nat | StartsPlain(events, i, j) && AnswersOf(records)[i]
      ensures AnswersOf(records)[j] <==> events[j].now > events[i].now + cfg.tcpEstablished
    {
      AnswerAfterFresh(cfg, events, records, i, j);
    }
  }

  lemma ProlongsRight(cfg: Config, events: seq<Event>, records: seq<Record>)
    requires GoodRun(cfg, events, records)
    ensures ProlongAnswers(events, AnswersOf(records))
  {
    forall h: nat, i: nat, j: nat | Prolongs(events, h, i, j)
      ensures AnswersOf(records)[j] <==> events[j].now > events[i].now + PhaseLifetime(events[h].pkt.tcpFlags)
    {
      AnswerAfterPlain(cfg, events, records, h, i, j);
    }
  }

  lemma GenericRight(cfg: Config, events: seq<Event>, records: seq<Record>)
    requires GoodRun(cfg, events, records) && forall i :: 0 <= i < |events| ==> events[i].now > cfg.generic
    ensures GenericAnswers(cfg, events, AnswersOf(records))
  {
    forall n | 0 <= n < |events| && events[n].pkt.proto != 6
      ensures records[n].newFlow <==> Fresh(cfg, events, n)
    {
      ForgettingUnobservable(cfg, events, records, n);
      IdealIsFresh(cfg, events, n);
    }
  }
}
