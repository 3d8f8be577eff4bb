/**
 The rules of the flow table that do not concern its links: flow keys and
 directions, the TCP state machine of a flow, expiry, and what forgetting
 expired flows does to the answers.
 */
module FlowRules {

  const IPPROTO_TCP: nat := 6

  const TH_FIN: bv8 := 0x01
  const TH_SYN: bv8 := 0x02
  const TH_RST: bv8 := 0x04
  const TH_ACK: bv8 := 0x10

  const FLOW_TCPSYN_LIFETIME: nat := 60
  const FLOW_TCPFIN_LIFETIME: nat := 30
  const FLOW_TCPRST_LIFETIME: nat := 10

  const SEQUENCE_LIMIT: nat := 0x1_0000_0000

  /** Configured lifetimes: of non-TCP flows and of established TCP flows. */
  datatype Config = Config(generic: nat, tcpEstablished: nat)

  // A value per direction of a flow: index 0 forward, index 1 reverse.
  datatype Pair<T> = Pair(forward: T, reverse: T) {
    function Get(idx: bool): T {
      if idx then reverse else forward
    }

    function Set(idx: bool, value: T): Pair<T> {
      if idx then this.(reverse := value) else this.(forward := value)
    }
  }

  datatype Endpoints = Endpoints(ipSrc: nat, ipDst: nat, portSrc: nat, portDst: nat)

  datatype FlowKey = FlowKey(ends: Endpoints, proto: nat)

  datatype Packet = Packet(ends: Endpoints, proto: nat, tcpFlags: bv8, tcpSeq: nat)

  /** The part of a flow node the table's decisions depend on. */
  datatype Flow = Flow(key: FlowKey, last: Pair<nat>, tcpFlags: Pair<bv8>, lastTcpSeq: nat)

  // ----- normalisation

  function Swapped(e: Endpoints): Endpoints {
    Endpoints(e.ipDst, e.ipSrc, e.portDst, e.portSrc)
  }

  /** The normalised endpoints and whether the packet is on the reverse
      direction. */
  function Normalize(e: Endpoints): (Endpoints, bool) {
    if e.portSrc < e.portDst then (Swapped(e), true)
    else if e.portSrc == e.portDst && e.ipSrc < e.ipDst then (Swapped(e), true)
    else (e, false)
  }

  function KeyOf(pkt: Packet): FlowKey {
    FlowKey(Normalize(pkt.ends).0, pkt.proto)
  }

  function DirectionOf(pkt: Packet): bool {
    Normalize(pkt.ends).1
  }

  /** Both directions of a conversation have one key, and opposite indices
      unless the two ends are the same. */
  lemma BothDirections(pkt: Packet, reply: Packet)
    requires reply.ends == Swapped(pkt.ends) && reply.proto == pkt.proto
    ensures KeyOf(reply) == KeyOf(pkt)
    ensures DirectionOf(reply) == DirectionOf(pkt) <==>
            (pkt.ends.ipSrc == pkt.ends.ipDst && pkt.ends.portSrc == pkt.ends.portDst)
  {
  }

  /** Only the two directions of one conversation share a key. */
  lemma KeyIsConversation(pkt: Packet, other: Packet)
    ensures KeyOf(pkt) == KeyOf(other) <==>
            pkt.proto == other.proto && (other.ends == pkt.ends || other.ends == Swapped(pkt.ends))
  {
  }

  // ----- the TCP state machine

  /** The transition into the established state: SYN on this direction, SYN
      and ACK on the other, and the sequence number that follows the SYN. */
  function Established(f: Flow, pkt: Packet, idx: bool): Flow {
    if f.tcpFlags.Get(idx) & TH_SYN != 0 && f.tcpFlags.Get(!idx) & TH_SYN != 0 && f.tcpFlags.Get(!idx) & TH_ACK != 0
       && pkt.tcpSeq == (f.lastTcpSeq + 1) % SEQUENCE_LIMIT
    then f.(tcpFlags := Pair(0, 0)) else f
  }

  function AfterSyn(f: Flow, pkt: Packet, idx: bool): Flow {
    if pkt.tcpFlags & TH_SYN == 0 then f
    else if pkt.tcpFlags & TH_ACK != 0 then f.(tcpFlags := f.tcpFlags.Set(idx, TH_SYN | TH_ACK))
    else f.(tcpFlags := f.tcpFlags.Set(idx, TH_SYN), lastTcpSeq := pkt.tcpSeq)
  }

  function AfterClose(f: Flow, pkt: Packet): Flow {
    if pkt.tcpFlags & TH_FIN != 0 || pkt.tcpFlags & TH_RST != 0
    then f.(tcpFlags := Pair(pkt.tcpFlags, pkt.tcpFlags)) else f
  }

  function EvaluateTcpFlags(f: Flow, pkt: Packet, idx: bool): Flow {
    if f.key.proto == IPPROTO_TCP then AfterClose(AfterSyn(Established(f, pkt, idx), pkt, idx), pkt) else f
  }

  /** Flags remembered for a direction name a phase with a lifetime. */
  predicate Mortal(flags: bv8) {
    flags != 0 ==> flags & TH_SYN != 0 || flags & TH_FIN != 0 || flags & TH_RST != 0
  }

  predicate MortalFlow(f: Flow) {
    Mortal(f.tcpFlags.forward) && Mortal(f.tcpFlags.reverse)
  }

  lemma EvaluateKeepsMortal(f: Flow, pkt: Packet, idx: bool)
    requires MortalFlow(f)
    ensures MortalFlow(EvaluateTcpFlags(f, pkt, idx))
    ensures EvaluateTcpFlags(f, pkt, idx).key == f.key && EvaluateTcpFlags(f, pkt, idx).last == f.last
  {
    var a := Established(f, pkt, idx);
    assert MortalFlow(a);
    var b := AfterSyn(a, pkt, idx);
    assert (TH_SYN | TH_ACK) & TH_SYN != 0 && TH_SYN & TH_SYN != 0;
    assert MortalFlow(b);
  }

  // ----- expiry

  predicate ExpiredUni(cfg: Config, now: nat, f: Flow, idx: bool) {
    var flags, last := f.tcpFlags.Get(idx), f.last.Get(idx);
    if f.key.proto == IPPROTO_TCP then
      if flags == 0 then now > last + cfg.tcpEstablished
      else
        || (flags & TH_SYN != 0 && now > last + FLOW_TCPSYN_LIFETIME)
        || (flags & TH_FIN != 0 && now > last + FLOW_TCPFIN_LIFETIME)
        || (flags & TH_RST != 0 && now > last + FLOW_TCPRST_LIFETIME)
    else now > last + cfg.generic
  }

  predicate Expired(cfg: Config, now: nat, f: Flow) {
    ExpiredUni(cfg, now, f, false) && ExpiredUni(cfg, now, f, true)
  }

  function Max(x: nat, y: nat): nat {
    if x < y then y else x
  }

  function LongestLifetime(cfg: Config): nat {
    Max(FLOW_TCPSYN_LIFETIME, Max(cfg.generic, cfg.tcpEstablished))
  }

  /** No direction outlives the longest lifetime. */
  lemma NoImmortalFlow(cfg: Config, now: nat, f: Flow, idx: bool)
    requires MortalFlow(f) && now > f.last.Get(idx) + LongestLifetime(cfg)
    ensures ExpiredUni(cfg, now, f, idx)
  {
    assert Mortal(f.tcpFlags.Get(idx));
  }

  lemma ExpiryIsFinal(cfg: Config, now: nat, later: nat, f: Flow, idx: bool)
    requires ExpiredUni(cfg, now, f, idx) && now <= later
    ensures ExpiredUni(cfg, later, f, idx)
  {
  }

  // ----- what a packet does to its flow

  function Seen(f: Flow, now: nat, pkt: Packet, idx: bool): Flow {
    var g := EvaluateTcpFlags(f, pkt, idx);
    g.(last := g.last.Set(idx, now))
  }

  /** A stale direction starts afresh. */
  function Cleared(f: Flow, idx: bool): Flow {
    f.(last := f.last.Set(idx, 0), tcpFlags := f.tcpFlags.Set(idx, 0))
  }

  function Touched(cfg: Config, f: Flow, now: nat, pkt: Packet, idx: bool): Flow {
    if ExpiredUni(cfg, now, f, idx) then Seen(Cleared(f, idx), now, pkt, idx) else Seen(f, now, pkt, idx)
  }

  function Created(now: nat, pkt: Packet): Flow {
    Seen(Flow(KeyOf(pkt), Pair(0, 0), Pair(0, 0), 0), now, pkt, DirectionOf(pkt))
  }

  lemma TouchedIsMortal(cfg: Config, f: Flow, now: nat, pkt: Packet, idx: bool)
    requires MortalFlow(f)
    ensures MortalFlow(Touched(cfg, f, now, pkt, idx)) && Touched(cfg, f, now, pkt, idx).key == f.key
  {
    EvaluateKeepsMortal(f, pkt, idx);
    EvaluateKeepsMortal(Cleared(f, idx), pkt, idx);
  }

  lemma CreatedIsMortal(now: nat, pkt: Packet)
    ensures MortalFlow(Created(now, pkt)) && Created(now, pkt).key == KeyOf(pkt)
  {
    EvaluateKeepsMortal(Flow(KeyOf(pkt), Pair(0, 0), Pair(0, 0), 0), pkt, DirectionOf(pkt));
  }

  // ----- the table as a map from keys to flows

  type View = map<FlowKey, Flow>

  /** `w` is `v` without some flows that had expired in both directions. */
  ghost predicate Forgets(cfg: Config, now: nat, v: View, w: View) {
    && w.Keys <= v.Keys
    && (forall k :: k in w ==> w[k] == v[k])
    && forall k :: k in v && k !in w ==> Expired(cfg, now, v[k])
  }

  /** What one packet may do: the flow is updated, or created while expired
      flows are forgotten, or skipped for want of nodes. */
  ghost predicate Step(cfg: Config, v: View, now: nat, pkt: Packet, room: bool, kept: View, v': View, newFlow: bool) {
    var k, idx := KeyOf(pkt), DirectionOf(pkt);
    && Forgets(cfg, now, v, kept)
    && if k in v then
         kept == v && v' == v[k := Touched(cfg, v[k], now, pkt, idx)] && newFlow == ExpiredUni(cfg, now, v[k], idx)
       else if room then
         v' == kept[k := Created(now, pkt)] && newFlow
       else
         v' == kept && !newFlow
  }
}
