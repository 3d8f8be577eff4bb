/**
 Class accumulators of one direction of a flow. While the flow is not
 classified its bytes and packets are accumulated; when a class turns up they
 are handed over with the packet, once; when the attempts to classify run out
 they are discarded. Classifiers and connection tracking are parameters of a
 packet: the class they would give it.
 */
module Classifier {
  import opened Traffic

  const BYTES_LIMIT: nat := 0x1_0000_0000 // accumulators are 32, 16 and 8 bits wide
  const PACKETS_LIMIT: nat := 0x1_0000
  const FLOWS_LIMIT: nat := 0x100

  /** A packet: its length, sums of fragments pending with it, whether it has
      a payload, the class its direction was given since the last packet (by
      the other direction, or by tracking), and the class the classifiers
      find in the payload; 0 is no class. */
  datatype Packet = Packet(len: nat, fragBytes: nat, fragPackets: nat, payload: bool, given: nat, verdict: nat)

  datatype Direction = Direction(cls: nat, tentatives: nat, sums: Amounts)

  function Wrapped(a: Amounts): Amounts {
    Amounts(a.bytes % 0x1_0000_0000, a.packets % 0x1_0000, a.flows % 0x100)
  }

  /** What a packet adds. */
  function Contribution(p: Packet, newFlow: bool): Amounts {
    Amounts(p.len + p.fragBytes, p.fragPackets + 1, if newFlow then 1 else 0)
  }

  // ----- one packet

  class FlowDirection {
    const classifierTentatives: nat
    var cls: nat
    var tentatives: nat
    var sums: Amounts

    constructor (classifierTentatives: nat)
      requires 0 < classifierTentatives < 256
      ensures this.classifierTentatives == classifierTentatives
      ensures Now() == Direction(0, 0, NOTHING)
    {
      this.classifierTentatives := classifierTentatives;
      cls, tentatives, sums := 0, 0, NOTHING;
    }

    function Now(): Direction
      reads this
    {
      Direction(cls, tentatives, sums)
    }

    /** A new flow starts with fresh accumulators and the inherited class. */
    method InitAccumulators(inherited: nat)
      modifies this
      ensures Now() == Direction(inherited, classifierTentatives, NOTHING)
    {
      sums := NOTHING;
      tentatives := classifierTentatives;
      cls := 0;
      if inherited != 0 {
        cls := inherited;
      }
    }

    /** Accumulates, discards or hands over. */
    method HandleAccumulators(p: Packet, newFlow: bool) returns (handed: Amounts)
      modifies this
      ensures (Now(), handed) == Handled(old(Now()), p, newFlow)
    {
      if cls == 0 {
        handed := NOTHING;
        if tentatives != 0 {
          var bytes := (sums.bytes + p.len) % BYTES_LIMIT;
          bytes := (bytes + p.fragBytes) % BYTES_LIMIT;
          var flows := if newFlow then (sums.flows + 1) % FLOWS_LIMIT else sums.flows;
          var packets := (sums.packets + p.fragPackets) % PACKETS_LIMIT;
          packets := (packets + 1) % PACKETS_LIMIT;
          sums := Amounts(bytes, packets, flows);
          if p.payload {
            tentatives := tentatives - 1;
          }
        } else {
          sums := NOTHING;
        }
      } else {
        handed := sums;
        sums := NOTHING;
        tentatives := 0;
      }
    }

    /** The steps of a packet of the direction. */
    method Evaluate(p: Packet, newFlow: bool) returns (handed: Amounts)
      modifies this
      ensures (Now(), handed) == Evaluated(classifierTentatives, old(Now()), p, newFlow)
    {
      if newFlow {
        InitAccumulators(p.given);
      } else if p.given != 0 {
        cls := p.given;
      }
      if cls != 0 || tentatives == 0 {
        handed := HandleAccumulators(p, newFlow);
        return;
      }
      if p.payload && p.verdict != 0 {
        cls := p.verdict;
      }
      handed := HandleAccumulators(p, newFlow);
    }
  }

  function Handled(d: Direction, p: Packet, newFlow: bool): (Direction, Amounts) {
    if d.cls != 0 then (Direction(d.cls, 0, NOTHING), d.sums)
    else if d.tentatives == 0 then (d.(sums := NOTHING), NOTHING)
    else
      var sums := Amounts(((d.sums.bytes + p.len) % BYTES_LIMIT + p.fragBytes) % BYTES_LIMIT,
                          ((d.sums.packets + p.fragPackets) % PACKETS_LIMIT + 1) % PACKETS_LIMIT,
                          if newFlow then (d.sums.flows + 1) % FLOWS_LIMIT else d.sums.flows);
      (Direction(0, if p.payload then d.tentatives - 1 else d.tentatives, sums), NOTHING)
  }

  function Started(tentatives: nat, d: Direction, p: Packet, newFlow: bool): Direction {
    if newFlow then Direction(p.given, tentatives, NOTHING)
    else if p.given != 0 then d.(cls := p.given)
    else d
  }

  function Evaluated(tentatives: nat, d: Direction, p: Packet, newFlow: bool): (Direction, Amounts) {
    var s := Started(tentatives, d, p, newFlow);
    if s.cls == 0 && s.tentatives > 0 && p.payload && p.verdict != 0
    then Handled(s.(cls := p.verdict), p, newFlow) else Handled(s, p, newFlow)
  }

  // ----- a whole flow: the first packet is new, the others are not

  /** The direction before packet `n`. */
  function Before(tentatives: nat, d: Direction, packets: seq<Packet>, n: nat): Direction
    requires n <= |packets|
  {
    if n == 0 then d
    else Evaluated(tentatives, Before(tentatives, d, packets, n - 1), packets[n - 1], n == 1).0
  }

  /** What is handed over with packet `n`. */
  function HandedAt(tentatives: nat, d: Direction, packets: seq<Packet>, n: nat): Amounts
    requires n < |packets|
  {
    Evaluated(tentatives, Before(tentatives, d, packets, n), packets[n], n == 0).1
  }

  function PayloadCount(packets: seq<Packet>, n: nat): nat
    requires n <= |packets|
  {
    if n == 0 then 0 else PayloadCount(packets, n - 1) + if packets[n - 1].payload then 1 else 0
  }

  function SumOf(packets: seq<Packet>, n: nat): Amounts
    requires n <= |packets|
  {
    if n == 0 then NOTHING else Plus(SumOf(packets, n - 1), Contribution(packets[n - 1], n == 1))
  }

  /** Packet `n` sees a class: one is given, or found while attempts last. */
  predicate SeesClass(tentatives: nat, packets: seq<Packet>, n: nat)
    requires n < |packets|
  {
    packets[n].given != 0 || (packets[n].payload && packets[n].verdict != 0 && PayloadCount(packets, n) < tentatives)
  }

  ghost predicate Unclassed(tentatives: nat, packets: seq<Packet>, n: nat)
    requires n <= |packets|
  {
    forall j :: 0 <= j < n ==> !SeesClass(tentatives, packets, j)
  }

  /** The attempts ran out before the last of the first `n` packets. */
  predicate RanOut(tentatives: nat, packets: seq<Packet>, n: nat)
    requires n <= |packets|
  {
    n > 0 && PayloadCount(packets, n - 1) >= tentatives
  }

  lemma BytesWrap(x: nat, y: nat, z: nat)
    ensures ((x % BYTES_LIMIT + y) % BYTES_LIMIT + z) % BYTES_LIMIT == (x + (y + z)) % BYTES_LIMIT
  {
  }

  lemma PacketsWrap(x: nat, y: nat, z: nat)
    ensures ((x % PACKETS_LIMIT + y) % PACKETS_LIMIT + z) % PACKETS_LIMIT == (x + (y + z)) % PACKETS_LIMIT
  {
  }

  lemma FlowsWrap(x: nat)
    ensures (x % FLOWS_LIMIT + 1) % FLOWS_LIMIT == (x + 1) % FLOWS_LIMIT
  {
  }

  lemma WrapStep(a: Amounts, p: Packet, newFlow: bool)
    ensures var s := Wrapped(a); var next := Wrapped(Plus(a, Contribution(p, newFlow)));
            && ((s.bytes + p.len) % BYTES_LIMIT + p.fragBytes) % BYTES_LIMIT == next.bytes
            && ((s.packets + p.fragPackets) % PACKETS_LIMIT + 1) % PACKETS_LIMIT == next.packets
            && (if newFlow then (s.flows + 1) % FLOWS_LIMIT else s.flows) == next.flows
  {
    BytesWrap(a.bytes, p.len, p.fragBytes);
    PacketsWrap(a.packets, p.fragPackets, 1);
    FlowsWrap(a.flows);
  }

  /** A packet that sees no class is added to the accumulators, or empties
      them if no attempts are left. */
  lemma UnclassedStep(tentatives: nat, d: Direction, p: Packet, newFlow: bool, a: Amounts)
    requires var s := Started(tentatives, d, p, newFlow);
             s.cls == 0 && !(s.tentatives > 0 && p.payload && p.verdict != 0) &&
                 (s.tentatives > 0 ==> s.sums == Wrapped(a))
    ensures var s, now := Started(tentatives, d, p, newFlow), Evaluated(tentatives, d, p, newFlow).0;
            && now.cls == 0
            && now.tentatives == (if p.payload && s.tentatives > 0 then s.tentatives - 1 else s.tentatives)
            && now.sums == if s.tentatives > 0 then Wrapped(Plus(a, Contribution(p, newFlow))) else NOTHING
  {
    hide Wrapped, Contribution, Plus;
    WrapStep(a, p, newFlow);
  }

  /** The accumulators of a direction that has seen no class. */
  lemma {:induction false} AccumulatorsAre(tentatives: nat, d: Direction, packets: seq<Packet>, n: nat)
    requires tentatives > 0 && 0 < n <= |packets| && Unclassed(tentatives, packets, n)
    ensures var now := Before(tentatives, d, packets, n);
            && now.cls == 0
            && now.tentatives ==
               (if PayloadCount(packets, n) < tentatives then tentatives - PayloadCount(packets, n) else 0)
            && now.sums == if RanOut(tentatives, packets, n) then NOTHING else Wrapped(SumOf(packets, n))
  {
    hide Evaluated, Plus, Contribution;
    assert !SeesClass(tentatives, packets, n - 1);
    if n == 1 {
      assert Wrapped(NOTHING) == NOTHING;
      hide Wrapped;
      UnclassedStep(tentatives, d, packets[0], true, NOTHING);
    } else {
      hide Wrapped;
      AccumulatorsAre(tentatives, d, packets, n - 1);
      UnclassedStep(tentatives, Before(tentatives, d, packets, n - 1), packets[n - 1], false, SumOf(packets, n - 1));
    }
  }

  /** Nothing is handed over before a class is seen. */
  lemma NothingBefore(tentatives: nat, d: Direction, packets: seq<Packet>, n: nat)
    requires tentatives > 0 && n < |packets| && Unclassed(tentatives, packets, n + 1)
    ensures HandedAt(tentatives, d, packets, n) == NOTHING
  {
    assert !SeesClass(tentatives, packets, n);
    if n > 0 {
      AccumulatorsAre(tentatives, d, packets, n);
    }
  }

  /** The first packet that sees a class takes everything accumulated before
      it, or nothing if the attempts had run out. */
  lemma HandedAtFirstClass(tentatives: nat, d: Direction, packets: seq<Packet>, n: nat)
    requires tentatives > 0 && n < |packets| && Unclassed(tentatives, packets, n) && SeesClass(tentatives, packets, n)
    ensures HandedAt(tentatives, d, packets, n) ==
            if RanOut(tentatives, packets, n) then NOTHING else Wrapped(SumOf(packets, n))
    ensures Before(tentatives, d, packets, n + 1).cls != 0 && Before(tentatives, d, packets, n + 1).sums == NOTHING
  {
    if n > 0 {
      AccumulatorsAre(tentatives, d, packets, n);
    }
  }

  lemma {:induction false} ClassStays(tentatives: nat, d: Direction, packets: seq<Packet>, n: nat, m: nat)
    requires 0 < n <= m <= |packets|
    requires Before(tentatives, d, packets, n).cls != 0 && Before(tentatives, d, packets, n).sums == NOTHING
    ensures Before(tentatives, d, packets, m).cls != 0 && Before(tentatives, d, packets, m).sums == NOTHING
  {
    if n < m {
      ClassStays(tentatives, d, packets, n, m - 1);
    }
  }

  /** ... and no later packet takes anything. */
  lemma NothingAfter(tentatives: nat, d: Direction, packets: seq<Packet>, n: nat, m: nat)
    requires tentatives > 0 && n < m < |packets| && Unclassed(tentatives, packets, n) &&
             SeesClass(tentatives, packets, n)
    ensures HandedAt(tentatives, d, packets, m) == NOTHING
  {
    HandedAtFirstClass(tentatives, d, packets, n);
    ClassStays(tentatives, d, packets, n + 1, m);
  }

  // ----- the class of every packet, told by the packets alone

  /** Packet `j` is the last up to `n` whose direction was given a class. */
  ghost predicate LastGiven(packets: seq<Packet>, n: nat, j: nat) {
    && j <= n < |packets| && packets[j].given != 0
    && forall i :: j < i <= n ==> packets[i].given == 0
  }

  /** The classifiers find a class in packet `f` while attempts last. */
  ghost predicate Finds(tentatives: nat, packets: seq<Packet>, f: nat)
    requires f < |packets|
  {
    packets[f].payload && packets[f].verdict != 0 && PayloadCount(packets, f) < tentatives
  }

  ghost predicate FirstFound(tentatives: nat, packets: seq<Packet>, n: nat, f: nat) {
    && f <= n < |packets| && Finds(tentatives, packets, f)
    && forall i :: 0 <= i < f ==> !Finds(tentatives, packets, i)
  }

  /** The class of packet `n`: the one given last; if none was given, the one
      found first; if none was found, no class. */
  ghost predicate ClassIs(tentatives: nat, packets: seq<Packet>, n: nat, cls: nat)
    requires n < |packets|
  {
    && (forall j: nat :: LastGiven(packets, n, j) ==> cls == packets[j].given)
    && ((forall j :: 0 <= j <= n ==> packets[j].given == 0) ==>
          && (forall f: nat :: FirstFound(tentatives, packets, n, f) ==> cls == packets[f].verdict)
          && ((forall f :: 0 <= f <= n ==> !Finds(tentatives, packets, f)) ==> cls == 0))
  }

  lemma {:induction false} SomeGiven(packets: seq<Packet>, n: nat, k: nat) returns (j: nat)
    requires k <= n < |packets| && packets[k].given != 0
    ensures LastGiven(packets, n, j)
    decreases n
  {
    if packets[n].given != 0 {
      j := n;
    } else {
      j := SomeGiven(packets, n - 1, k);
    }
  }

  lemma {:induction false} SomeFound(tentatives: nat, packets: seq<Packet>, n: nat, k: nat) returns (f: nat)
    requires k <= n < |packets| && Finds(tentatives, packets, k)
    ensures FirstFound(tentatives, packets, n, f)
    decreases k
  {
    hide Finds;
    if i :| 0 <= i < k && Finds(tentatives, packets, i) {
      f := SomeFound(tentatives, packets, n, i);
    } else {
      f := k;
    }
  }

  /** Without a class nothing has been given or found. */
  lemma NoClassYet(tentatives: nat, packets: seq<Packet>, n: nat)
    requires n < |packets| && ClassIs(tentatives, packets, n, 0)
    ensures Unclassed(tentatives, packets, n + 1)
  {
    forall k | 0 <= k <= n ensures !SeesClass(tentatives, packets, k) {
      if packets[k].given != 0 {
        var j := SomeGiven(packets, n, k);
      }
      if Finds(tentatives, packets, k) {
        var f := SomeFound(tentatives, packets, n, k);
        if i :| 0 <= i <= n && packets[i].given != 0 {
          var j := SomeGiven(packets, n, i);
        }
      }
    }
  }

  /** A packet that is given nothing keeps a class there is. */
  lemma ClassKept(tentatives: nat, packets: seq<Packet>, n: nat, cls: nat)
    requires 0 < n < |packets| && packets[n].given == 0 && cls != 0
    requires ClassIs(tentatives, packets, n - 1, cls)
    ensures ClassIs(tentatives, packets, n, cls)
  {
    hide Finds;
    forall j: nat | LastGiven(packets, n, j) ensures cls == packets[j].given {
      assert LastGiven(packets, n - 1, j);
    }
    if forall j :: 0 <= j <= n ==> packets[j].given == 0 {
      assert forall j :: 0 <= j <= n - 1 ==> packets[j].given == 0;
      var k := FoundBefore(tentatives, packets, n - 1, cls);
      forall f: nat | FirstFound(tentatives, packets, n, f) ensures cls == packets[f].verdict {
        assert f <= k;
        assert FirstFound(tentatives, packets, n - 1, f);
      }
    }
  }

  lemma FoundBefore(tentatives: nat, packets: seq<Packet>, n: nat, cls: nat) returns (k: nat)
    requires n < |packets| && cls != 0 && ClassIs(tentatives, packets, n, cls)
    requires forall j :: 0 <= j <= n ==> packets[j].given == 0
    ensures k <= n && Finds(tentatives, packets, k)
  {
    hide Finds;
    k :| 0 <= k <= n && Finds(tentatives, packets, k);
  }

  lemma NothingSeen(tentatives: nat, packets: seq<Packet>, n: nat)
    requires n <= |packets| && Unclassed(tentatives, packets, n)
    ensures forall k :: 0 <= k < n ==> packets[k].given == 0 && !Finds(tentatives, packets, k)
  {
    forall k | 0 <= k < n ensures packets[k].given == 0 && !Finds(tentatives, packets, k) {
      assert !SeesClass(tentatives, packets, k);
    }
  }

  /** The class of a packet where there was none before. */
  lemma ClassNew(tentatives: nat, packets: seq<Packet>, n: nat)
    requires n < |packets| && Unclassed(tentatives, packets, n)
    ensures var p := packets[n];
            ClassIs(tentatives, packets, n,
                    if p.given != 0 then p.given else if Finds(tentatives, packets, n) then p.verdict else 0)
  {
    NothingSeen(tentatives, packets, n);
  }

  /** The class after one packet. */
  lemma EvaluatedClass(tentatives: nat, d: Direction, p: Packet, newFlow: bool)
    ensures var s := Started(tentatives, d, p, newFlow);
            Evaluated(tentatives, d, p, newFlow).0.cls ==
            if s.cls != 0 then s.cls
            else if s.tentatives > 0 && p.payload && p.verdict != 0 then p.verdict
            else 0
  {
  }

  /** Over any run, every packet gets this class. */
  lemma {:induction false} ClassExactly(tentatives: nat, d: Direction, packets: seq<Packet>, n: nat)
    requires tentatives > 0 && n < |packets|
    ensures ClassIs(tentatives, packets, n, Before(tentatives, d, packets, n + 1).cls)
  {
    hide ClassIs, Evaluated, Unclassed, Wrapped, SumOf;
    var p, before := packets[n], Before(tentatives, d, packets, n);
    EvaluatedClass(tentatives, before, p, n == 0);
    if n == 0 {
      NoneBefore(tentatives, packets);
      ClassNew(tentatives, packets, n);
    } else {
      ClassExactly(tentatives, d, packets, n - 1);
      if before.cls == 0 {
        NoClassYet(tentatives, packets, n - 1);
        AccumulatorsAre(tentatives, d, packets, n);
        ClassNew(tentatives, packets, n);
      } else if p.given == 0 {
        ClassKept(tentatives, packets, n, before.cls);
      } else {
        ClassGiven(tentatives, packets, n);
      }
    }
  }

  lemma NoneBefore(tentatives: nat, packets: seq<Packet>)
    ensures Unclassed(tentatives, packets, 0)
  {
  }

  lemma ClassGiven(tentatives: nat, packets: seq<Packet>, n: nat)
    requires n < |packets| && packets[n].given != 0
    ensures ClassIs(tentatives, packets, n, packets[n].given)
  {
    hide Finds;
  }

  lemma FirstClass(tentatives: nat, packets: seq<Packet>, n: nat, cls: nat)
    requires n < |packets| && Unclassed(tentatives, packets, n) && SeesClass(tentatives, packets, n)
    requires ClassIs(tentatives, packets, n, cls)
    ensures cls == if packets[n].given != 0 then packets[n].given else packets[n].verdict
  {
    NothingSeen(tentatives, packets, n);
    if packets[n].given != 0 {
      assert LastGiven(packets, n, n);
    } else {
      assert FirstFound(tentatives, packets, n, n);
    }
  }

  /** The class the first classed packet gets is its own... */
  lemma ClassAtFirst(tentatives: nat, d: Direction, packets: seq<Packet>, n: nat)
    requires tentatives > 0 && n < |packets|
    requires Unclassed(tentatives, packets, n) && SeesClass(tentatives, packets, n)
    ensures Before(tentatives, d, packets, n + 1).cls ==
            if packets[n].given != 0 then packets[n].given else packets[n].verdict
  {
    hide ClassIs, Before;
    ClassExactly(tentatives, d, packets, n);
    FirstClass(tentatives, packets, n, Before(tentatives, d, packets, n + 1).cls);
  }

  /** ... and it stays, until another one is given. */
  lemma {:induction false} ClassAfter(tentatives: nat, d: Direction, packets: seq<Packet>, n: nat, m: nat)
    requires tentatives > 0 && n <= m < |packets|
    requires Unclassed(tentatives, packets, n) && SeesClass(tentatives, packets, n)
    ensures (forall j :: n < j <= m ==> packets[j].given == 0) ==>
              Before(tentatives, d, packets, m + 1).cls == Before(tentatives, d, packets, n + 1).cls
    ensures forall j: nat :: n < j && LastGiven(packets, m, j) ==>
              Before(tentatives, d, packets, m + 1).cls == packets[j].given
  {
    HandedAtFirstClass(tentatives, d, packets, n);
    if n < m {
      ClassStays(tentatives, d, packets, n + 1, m);
      ClassAfter(tentatives, d, packets, n, m - 1);
      assert forall j: nat :: LastGiven(packets, m, j) && j < m ==> LastGiven(packets, m - 1, j);
    }
  }

  /** The packets of a flow, one after the other: each packet's class, and
      what is handed over with it. */
  method Classify(tentatives: nat, packets: seq<Packet>) returns (classes: seq<nat>, handed: seq<Amounts>)
    requires 0 < tentatives < 256
    ensures |classes| == |handed| == |packets|
    ensures forall n :: 0 <= n < |packets| ==> ClassIs(tentatives, packets, n, classes[n])
    ensures forall n :: 0 <= n < |packets| ==>
              handed[n] == if Unclassed(tentatives, packets, n) && SeesClass(tentatives, packets, n) &&
                              !RanOut(tentatives, packets, n)
                           then Wrapped(SumOf(packets, n)) else NOTHING
  {
    hide ClassIs, Evaluated, Unclassed, SeesClass, RanOut, Wrapped, SumOf;
    var direction := new FlowDirection(tentatives);
    ghost var d := direction.Now();
    classes, handed := [], [];
    for n := 0 to |packets|
      invariant fresh(direction) && direction.classifierTentatives == tentatives
      invariant direction.Now() == Before(tentatives, d, packets, n)
      invariant |classes| == |handed| == n
      invariant forall k :: 0 <= k < n ==> ClassIs(tentatives, packets, k, classes[k])
      invariant forall k :: 0 <= k < n ==> handed[k] == HandedAt(tentatives, d, packets, k)
    {
      var amounts := direction.Evaluate(packets[n], n == 0);
      ClassExactly(tentatives, d, packets, n);
      classes := classes + [direction.cls];
      handed := handed + [amounts];
    }
    forall n | 0 <= n < |packets|
      ensures handed[n] == if Unclassed(tentatives, packets, n) && SeesClass(tentatives, packets, n) &&
                              !RanOut(tentatives, packets, n)
                           then Wrapped(SumOf(packets, n)) else NOTHING
    {
      HandedExactly(tentatives, d, packets, n);
    }
  }

  /** What is handed over with each packet of a run. */
  lemma HandedExactly(tentatives: nat, d: Direction, packets: seq<Packet>, n: nat)
    requires tentatives > 0 && n < |packets|
    ensures HandedAt(tentatives, d, packets, n) ==
            if Unclassed(tentatives, packets, n) && SeesClass(tentatives, packets, n) &&
               !RanOut(tentatives, packets, n)
            then Wrapped(SumOf(packets, n)) else NOTHING
  {
    hide SeesClass, Wrapped, SumOf, RanOut;
    if !Unclassed(tentatives, packets, n) {
      var k := FirstSeen(tentatives, packets, n);
      NothingAfter(tentatives, d, packets, k, n);
    } else if SeesClass(tentatives, packets, n) {
      HandedAtFirstClass(tentatives, d, packets, n);
    } else {
      NothingBefore(tentatives, d, packets, n);
    }
  }

  lemma {:induction false} FirstSeen(tentatives: nat, packets: seq<Packet>, n: nat) returns (k: nat)
    requires n < |packets| && !Unclassed(tentatives, packets, n)
    ensures k < n && Unclassed(tentatives, packets, k) && SeesClass(tentatives, packets, k)
    decreases n
  {
    hide SeesClass;
    if Unclassed(tentatives, packets, n - 1) {
      k := n - 1;
    } else {
      k := FirstSeen(tentatives, packets, n - 1);
    }
  }
}
