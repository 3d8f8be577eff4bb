/**
 The in-memory accounting table: buckets of chained elements, the first of
 which is part of the bucket array; a pointer per bucket to the element used
 last; elements taken over once their counters are zero; and the transfer of
 traffic from class 0 to the class a flow is found to belong to.

 An element is found by its signature and its primitives. The signature
 covers tunnel data too, the comparison does not, so what the table keeps
 apart are pairs of primitives and signature.
 */
module AcctTable {
  import opened Options
  import opened Traffic

  /** Aggregation primitives: the class, and all others together. */
  datatype Primitives = Primitives(cls: nat, others: nat)

  datatype Id = Id(prims: Primitives, signature: nat)

  datatype Element = Element(prims: Primitives, signature: nat, counters: Amounts)

  /** A zeroed element. */
  const BLANK := Element(Primitives(0, 0), 0, NOTHING)

  function Min(x: nat, y: nat): nat {
    if x < y then x else y
  }

  function Minus(a: Amounts, b: Amounts): Amounts {
    Amounts(a.bytes - Min(a.bytes, b.bytes), a.packets - Min(a.packets, b.packets), a.flows - Min(a.flows, b.flows))
  }

  /** Memory for further elements: in the current pool, in pools not yet
      requested, and whether a request has failed. */
  datatype Space = Space(left: nat, pools: nat, noMore: bool)

  datatype Table = Table(chains: seq<seq<Element>>, lru: seq<Option<nat>>, space: Space)

  predicate Matches(e: Element, id: Id) {
    e.signature == id.signature && e.prims == id.prims
  }

  predicate Free(e: Element) {
    e.counters.bytes == 0 && e.counters.packets == 0
  }

  function Credit(e: Element, id: Id, amounts: Amounts): Element {
    Element(id.prims, id.signature, Plus(e.counters, amounts))
  }

  predicate Shaped(t: Table) {
    && |t.chains| == |t.lru| > 0
    && (forall b :: 0 <= b < |t.chains| ==> |t.chains[b]| > 0)
    && forall b :: 0 <= b < |t.lru| && t.lru[b].Some? ==> t.lru[b].value < |t.chains[b]|
  }

  function BucketOf(t: Table, id: Id): nat
    requires Shaped(t)
  {
    id.signature % |t.chains|
  }

  /** Where a walk along a chain stops: at the first element that matches or
      is free, else at the end. */
  function FirstSlot(c: seq<Element>, id: Id): (k: nat)
    ensures k <= |c|
    ensures k < |c| ==> Matches(c[k], id) || Free(c[k])
    ensures forall i :: 0 <= i < k ==> !Matches(c[i], id) && !Free(c[i])
  {
    if c == [] then 0 else if Matches(c[0], id) || Free(c[0]) then 0 else 1 + FirstSlot(c[1..], id)
  }

  /** The first element that matches. */
  function FirstMatch(c: seq<Element>, id: Id): (k: nat)
    ensures k <= |c|
    ensures k < |c| ==> Matches(c[k], id)
    ensures forall i :: 0 <= i < k ==> !Matches(c[i], id)
  {
    if c == [] then 0 else if Matches(c[0], id) then 0 else 1 + FirstMatch(c[1..], id)
  }

  predicate CanAllocate(s: Space) {
    !s.noMore && (s.left > 0 || s.pools > 0)
  }

  /** Memory after a request for one element; a pool holds `poolSize`. */
  function AfterRequest(s: Space, poolSize: nat): Space
    requires poolSize > 0
  {
    if s.noMore then s
    else if s.left > 0 then s.(left := s.left - 1)
    else if s.pools > 0 then Space(poolSize - 1, s.pools - 1, false)
    else s.(noMore := true)
  }

  predicate ShortcutHits(t: Table, id: Id)
    requires Shaped(t)
  {
    var b := BucketOf(t, id);
    t.lru[b].Some? && Matches(t.chains[b][t.lru[b].value], id)
  }

  /** Crediting amounts by walking the chain. */
  function Walked(t: Table, id: Id, amounts: Amounts, poolSize: nat): Table
    requires Shaped(t) && poolSize > 0
  {
    var b := BucketOf(t, id);
    var c := t.chains[b];
    var k := FirstSlot(c, id);
    if k < |c| then
      t.(chains := t.chains[b := c[k := Credit(c[k], id, amounts)]], lru := t.lru[b := Some(k)])
    else if CanAllocate(t.space) then
      Table(t.chains[b := c + [Credit(BLANK, id, amounts)]], t.lru[b := Some(|c|)], AfterRequest(t.space, poolSize))
    else t.(space := AfterRequest(t.space, poolSize))
  }

  /** ... with the shortcut through the element used last. */
  function Placed(t: Table, id: Id, amounts: Amounts, poolSize: nat): Table
    requires Shaped(t) && poolSize > 0
  {
    var b := BucketOf(t, id);
    var c := t.chains[b];
    if ShortcutHits(t, id) then
      t.(chains := t.chains[b := c[t.lru[b].value := Credit(c[t.lru[b].value], id, amounts)]])
    else Walked(t, id, amounts, poolSize)
  }

  lemma PlacedShaped(t: Table, id: Id, amounts: Amounts, poolSize: nat)
    requires Shaped(t) && poolSize > 0
    ensures Shaped(Placed(t, id, amounts, poolSize)) && Shaped(Walked(t, id, amounts, poolSize))
  {
  }

  // ----- totals

  function SumBytes(c: seq<Element>): nat {
    if c == [] then 0 else SumBytes(c[..|c| - 1]) + c[|c| - 1].counters.bytes
  }

  function SumPackets(c: seq<Element>): nat {
    if c == [] then 0 else SumPackets(c[..|c| - 1]) + c[|c| - 1].counters.packets
  }

  function TotalBytes(chains: seq<seq<Element>>): nat {
    if chains == [] then 0 else TotalBytes(chains[..|chains| - 1]) + SumBytes(chains[|chains| - 1])
  }

  function TotalPackets(chains: seq<seq<Element>>): nat {
    if chains == [] then 0 else TotalPackets(chains[..|chains| - 1]) + SumPackets(chains[|chains| - 1])
  }

  lemma {:induction false} SumUpdate(c: seq<Element>, k: nat, e: Element)
    requires k < |c|
    ensures SumBytes(c[k := e]) == SumBytes(c) - c[k].counters.bytes + e.counters.bytes
    ensures SumPackets(c[k := e]) == SumPackets(c) - c[k].counters.packets + e.counters.packets
  {
    var n := |c| - 1;
    if k == n {
      assert c[k := e][..n] == c[..n];
    } else {
      assert c[k := e][..n] == c[..n][k := e];
      SumUpdate(c[..n], k, e);
    }
  }

  lemma {:induction false} TotalUpdate(chains: seq<seq<Element>>, b: nat, c: seq<Element>)
    requires b < |chains|
    ensures TotalBytes(chains[b := c]) == TotalBytes(chains) - SumBytes(chains[b]) + SumBytes(c)
    ensures TotalPackets(chains[b := c]) == TotalPackets(chains) - SumPackets(chains[b]) + SumPackets(c)
  {
    var n := |chains| - 1;
    if b == n {
      assert chains[b := c][..n] == chains[..n];
    } else {
      assert chains[b := c][..n] == chains[..n][b := c];
      TotalUpdate(chains[..n], b, c);
    }
  }

  /** Room for the record: a slot of its chain, or memory for a new one. */
  predicate Room(t: Table, id: Id)
    requires Shaped(t)
  {
    || FirstMatch(t.chains[BucketOf(t, id)], id) < |t.chains[BucketOf(t, id)]|
    || FirstSlot(t.chains[BucketOf(t, id)], id) < |t.chains[BucketOf(t, id)]|
    || CanAllocate(t.space)
  }

  lemma CreditTotals(t: Table, b: nat, k: nat, id: Id, amounts: Amounts)
    requires Shaped(t) && b < |t.chains| && k < |t.chains[b]|
    ensures var chains' := t.chains[b := t.chains[b][k := Credit(t.chains[b][k], id, amounts)]];
            && TotalBytes(chains') == TotalBytes(t.chains) + amounts.bytes
            && TotalPackets(chains') == TotalPackets(t.chains) + amounts.packets
  {
    var e := Credit(t.chains[b][k], id, amounts);
    SumUpdate(t.chains[b], k, e);
    TotalUpdate(t.chains, b, t.chains[b][k := e]);
  }

  lemma AppendTotals(t: Table, b: nat, id: Id, amounts: Amounts)
    requires Shaped(t) && b < |t.chains|
    ensures var chains' := t.chains[b := t.chains[b] + [Credit(BLANK, id, amounts)]];
            && TotalBytes(chains') == TotalBytes(t.chains) + amounts.bytes
            && TotalPackets(chains') == TotalPackets(t.chains) + amounts.packets
  {
    var c, e := t.chains[b], Credit(BLANK, id, amounts);
    assert (c + [e])[..|c|] == c;
    TotalUpdate(t.chains, b, c + [e]);
  }

  /** Crediting raises the totals by the amounts, unless there is no room and
      the amounts are dropped. */
  lemma PlacedTotals(t: Table, id: Id, amounts: Amounts, poolSize: nat)
    requires Shaped(t) && poolSize > 0
    ensures var t' := Placed(t, id, amounts, poolSize);
            if Room(t, id)
            then TotalBytes(t'.chains) == TotalBytes(t.chains) + amounts.bytes &&
                 TotalPackets(t'.chains) == TotalPackets(t.chains) + amounts.packets
            else t'.chains == t.chains
  {
    var b := BucketOf(t, id);
    var c := t.chains[b];
    if ShortcutHits(t, id) {
      CreditTotals(t, b, t.lru[b].value, id, amounts);
    } else if FirstSlot(c, id) < |c| {
      CreditTotals(t, b, FirstSlot(c, id), id, amounts);
    } else if CanAllocate(t.space) {
      AppendTotals(t, b, id, amounts);
    }
  }

  // ----- records and the transfer between classes

  /** A record: its key, its own amounts, and the amounts accumulated while
      its flow was not classified. */
  datatype Record = Record(prims: Primitives, tunnel: nat, own: Amounts, accumulated: Amounts)

  type Hash = (Primitives, nat) -> nat

  function IdOf(hash: Hash, r: Record): Id {
    Id(r.prims, hash(r.prims, r.tunnel))
  }

  /** The key the traffic was accounted to before it had a class. */
  function ClassZeroId(hash: Hash, r: Record): Id {
    var p := r.prims.(cls := 0);
    Id(p, hash(p, r.tunnel))
  }

  predicate Transfers(countClass: bool, r: Record) {
    countClass && r.accumulated.bytes != 0 && r.prims.cls != 0
  }

  /** The position of the class-zero element in its chain, or the end. */
  function ClassZeroAt(t: Table, hash: Hash, r: Record): nat
    requires Shaped(t)
  {
    FirstMatch(t.chains[BucketOf(t, ClassZeroId(hash, r))], ClassZeroId(hash, r))
  }

  predicate HasClassZero(t: Table, hash: Hash, r: Record)
    requires Shaped(t)
  {
    ClassZeroAt(t, hash, r) < |t.chains[BucketOf(t, ClassZeroId(hash, r))]|
  }

  function ClassZero(t: Table, hash: Hash, r: Record): Element
    requires Shaped(t) && HasClassZero(t, hash, r)
  {
    t.chains[BucketOf(t, ClassZeroId(hash, r))][ClassZeroAt(t, hash, r)]
  }

  /** The accumulated amounts are taken from class zero... */
  function Debited(t: Table, hash: Hash, countClass: bool, r: Record): Table
    requires Shaped(t)
  {
    if Transfers(countClass, r) && HasClassZero(t, hash, r) then
      var b, k := BucketOf(t, ClassZeroId(hash, r)), ClassZeroAt(t, hash, r);
      var e := t.chains[b][k];
      t.(chains := t.chains[b := t.chains[b][k := e.(counters := Minus(e.counters, r.accumulated))]])
    else t
  }

  /** ... and given to the record, unless there is nothing to take from. */
  function Credited(t: Table, hash: Hash, countClass: bool, r: Record): Amounts
    requires Shaped(t)
  {
    if !countClass || (Transfers(countClass, r) && !HasClassZero(t, hash, r)) then r.own
    else Plus(r.own, r.accumulated)
  }

  /** What an insertion does to the table. */
  function Inserted(t: Table, hash: Hash, countClass: bool, poolSize: nat, r: Record): Table
    requires Shaped(t) && poolSize > 0
  {
    Placed(Debited(t, hash, countClass, r), IdOf(hash, r), Credited(t, hash, countClass, r), poolSize)
  }

  lemma InsertedShaped(t: Table, hash: Hash, countClass: bool, poolSize: nat, r: Record)
    requires Shaped(t) && poolSize > 0
    ensures Shaped(Debited(t, hash, countClass, r)) && Shaped(Inserted(t, hash, countClass, poolSize, r))
  {
    PlacedShaped(Debited(t, hash, countClass, r), IdOf(hash, r), Credited(t, hash, countClass, r), poolSize);
  }

  /** The bytes the transfer takes from class zero. */
  function DebitedBytes(t: Table, hash: Hash, countClass: bool, r: Record): nat
    requires Shaped(t)
  {
    if Transfers(countClass, r) && HasClassZero(t, hash, r)
    then Min(ClassZero(t, hash, r).counters.bytes, r.accumulated.bytes) else 0
  }

  function DebitedPackets(t: Table, hash: Hash, countClass: bool, r: Record): nat
    requires Shaped(t)
  {
    if Transfers(countClass, r) && HasClassZero(t, hash, r)
    then Min(ClassZero(t, hash, r).counters.packets, r.accumulated.packets) else 0
  }

  lemma DebitedTotals(t: Table, hash: Hash, countClass: bool, r: Record)
    requires Shaped(t)
    ensures TotalBytes(Debited(t, hash, countClass, r).chains) + DebitedBytes(t, hash, countClass, r) ==
            TotalBytes(t.chains)
    ensures TotalPackets(Debited(t, hash, countClass, r).chains) + DebitedPackets(t, hash, countClass, r) ==
            TotalPackets(t.chains)
  {
    if Transfers(countClass, r) && HasClassZero(t, hash, r) {
      var b, k := BucketOf(t, ClassZeroId(hash, r)), ClassZeroAt(t, hash, r);
      var e := t.chains[b][k].(counters := Minus(t.chains[b][k].counters, r.accumulated));
      SumUpdate(t.chains[b], k, e);
      TotalUpdate(t.chains, b, t.chains[b][k := e]);
    }
  }

  predicate RoomAfterDebit(t: Table, hash: Hash, countClass: bool, r: Record)
    requires Shaped(t)
  {
    Room(Debited(t, hash, countClass, r), IdOf(hash, r))
  }

  /** When an insertion accounts exactly the record's own bytes: nothing was
      accumulated, or what was accumulated is moved from a class-zero element
      that holds it, or given up. */
  predicate KeepsBytes(t: Table, hash: Hash, countClass: bool, r: Record)
    requires Shaped(t)
  {
    || !countClass || r.accumulated.bytes == 0
    || (r.prims.cls != 0 &&
        (HasClassZero(t, hash, r) ==> ClassZero(t, hash, r).counters.bytes >= r.accumulated.bytes))
  }

  /** The same for packets; they are moved only if bytes are. */
  predicate KeepsPackets(t: Table, hash: Hash, countClass: bool, r: Record)
    requires Shaped(t)
  {
    || !countClass || r.accumulated.packets == 0
    || (r.prims.cls != 0 && r.accumulated.bytes != 0 &&
        (HasClassZero(t, hash, r) ==> ClassZero(t, hash, r).counters.packets >= r.accumulated.packets))
  }

  /** An insertion with room raises the total of bytes by the record's own
      bytes in exactly these cases. */
  lemma BytesConserved(t: Table, hash: Hash, countClass: bool, poolSize: nat, r: Record)
    requires Shaped(t) && poolSize > 0 && RoomAfterDebit(t, hash, countClass, r)
    ensures TotalBytes(Inserted(t, hash, countClass, poolSize, r).chains) == TotalBytes(t.chains) + r.own.bytes <==>
            KeepsBytes(t, hash, countClass, r)
  {
    InsertedTotals(t, hash, countClass, poolSize, r);
  }

  lemma PacketsConserved(t: Table, hash: Hash, countClass: bool, poolSize: nat, r: Record)
    requires Shaped(t) && poolSize > 0 && RoomAfterDebit(t, hash, countClass, r)
    ensures TotalPackets(Inserted(t, hash, countClass, poolSize, r).chains) == TotalPackets(t.chains) + r.own.packets
            <==> KeepsPackets(t, hash, countClass, r)
  {
    InsertedTotals(t, hash, countClass, poolSize, r);
  }

  /** The totals after an insertion: less what is taken from class zero, plus
      what is credited if there is room. */
  lemma InsertedTotals(t: Table, hash: Hash, countClass: bool, poolSize: nat, r: Record)
    requires Shaped(t) && poolSize > 0
    ensures var chains, credited := Inserted(t, hash, countClass, poolSize, r).chains, Credited(t, hash, countClass, r);
            var room := RoomAfterDebit(t, hash, countClass, r);
            && TotalBytes(chains) + DebitedBytes(t, hash, countClass, r) ==
               TotalBytes(t.chains) + (if room then credited.bytes else 0)
            && TotalPackets(chains) + DebitedPackets(t, hash, countClass, r) ==
               TotalPackets(t.chains) + (if room then credited.packets else 0)
  {
    hide Room, Placed, Credited, DebitedBytes, DebitedPackets, Debited, TotalBytes, TotalPackets;
    InsertedShaped(t, hash, countClass, poolSize, r);
    DebitedTotals(t, hash, countClass, r);
    PlacedTotals(Debited(t, hash, countClass, r), IdOf(hash, r), Credited(t, hash, countClass, r), poolSize);
  }

  /** Without room the record is dropped, but what the transfer took from
      class zero is gone. */
  lemma DroppedLosesDebit(t: Table, hash: Hash, countClass: bool, poolSize: nat, r: Record)
    requires Shaped(t) && poolSize > 0 && !RoomAfterDebit(t, hash, countClass, r)
    ensures var chains := Inserted(t, hash, countClass, poolSize, r).chains;
            && TotalBytes(chains) + DebitedBytes(t, hash, countClass, r) == TotalBytes(t.chains)
            && TotalPackets(chains) + DebitedPackets(t, hash, countClass, r) == TotalPackets(t.chains)
  {
    InsertedTotals(t, hash, countClass, poolSize, r);
  }

  /** Traffic accounted before is lost exactly when there is no room for a
      record for which some has been taken from class zero. */
  lemma LostExactly(t: Table, hash: Hash, countClass: bool, poolSize: nat, r: Record)
    requires Shaped(t) && poolSize > 0
    ensures var chains := Inserted(t, hash, countClass, poolSize, r).chains;
            var room := RoomAfterDebit(t, hash, countClass, r);
            && (TotalBytes(chains) < TotalBytes(t.chains) <==> !room && DebitedBytes(t, hash, countClass, r) > 0)
            && (TotalPackets(chains) < TotalPackets(t.chains) <==> !room && DebitedPackets(t, hash, countClass, r) > 0)
  {
    InsertedTotals(t, hash, countClass, poolSize, r);
  }

  // ----- without class accounting: one element per key, holding its sums

  function IdIn(e: Element): Id {
    Id(e.prims, e.signature)
  }

  /** Every chain is untouched, or has elements in use with distinct keys. */
  ghost predicate TidyChain(c: seq<Element>, b: nat, size: nat)
    requires size > 0
  {
    || c == [BLANK]
    || ((forall i :: 0 <= i < |c| ==> !Free(c[i]) && c[i].signature % size == b)
        && forall i, j :: 0 <= i < j < |c| ==> IdIn(c[i]) != IdIn(c[j]))
  }

  ghost predicate Tidy(t: Table) {
    && Shaped(t)
    && forall b :: 0 <= b < |t.chains| ==> TidyChain(t.chains[b], b, |t.chains|)
  }

  type View = map<Id, Amounts>

  ghost predicate Holds(c: seq<Element>, id: Id, counters: Amounts) {
    exists i :: 0 <= i < |c| && !Free(c[i]) && IdIn(c[i]) == id && c[i].counters == counters
  }

  /** The table holds exactly the counters of `v`. */
  ghost predicate Represents(t: Table, v: View) {
    && Shaped(t)
    && (forall b, i :: 0 <= b < |t.chains| && 0 <= i < |t.chains[b]| && !Free(t.chains[b][i]) ==>
          IdIn(t.chains[b][i]) in v && v[IdIn(t.chains[b][i])] == t.chains[b][i].counters)
    && forall id :: id in v ==> Holds(t.chains[BucketOf(t, id)], id, v[id])
  }

  function Before(v: View, id: Id): Amounts {
    if id in v then v[id] else NOTHING
  }

  /** In a tidy chain the element with a key is found, by the shortcut or by
      the walk alike. */
  lemma FoundInTidy(t: Table, v: View, id: Id)
    requires Tidy(t) && Represents(t, v)
    ensures var b := BucketOf(t, id); var c := t.chains[b];
            && (id in v ==> FirstSlot(c, id) < |c| && FirstSlot(c, id) == FirstMatch(c, id) &&
                            c[FirstSlot(c, id)].counters == v[id])
            && (id !in v && c != [BLANK] ==> FirstSlot(c, id) == |c| == FirstMatch(c, id))
            && (c == [BLANK] ==> FirstSlot(c, id) == 0 && id !in v)
            && (ShortcutHits(t, id) && c != [BLANK] ==> id in v && t.lru[b].value == FirstSlot(c, id))
  {
    var b := BucketOf(t, id);
    var c := t.chains[b];
    assert TidyChain(c, b, |t.chains|);
    if id in v {
      assert Holds(c, id, v[id]);
      var i :| 0 <= i < |c| && !Free(c[i]) && IdIn(c[i]) == id && c[i].counters == v[id];
      assert Matches(c[i], id);
    }
  }

  /** The shortcut never changes the result. */
  lemma ShortcutHarmless(t: Table, v: View, id: Id, amounts: Amounts, poolSize: nat)
    requires Tidy(t) && Represents(t, v) && poolSize > 0
    ensures Placed(t, id, amounts, poolSize).chains == Walked(t, id, amounts, poolSize).chains
    ensures Placed(t, id, amounts, poolSize).space == Walked(t, id, amounts, poolSize).space
  {
    FoundInTidy(t, v, id);
  }

  lemma CreditedChain(t: Table, v: View, id: Id, amounts: Amounts, k: nat)
    requires Tidy(t) && Represents(t, v) && amounts.bytes + amounts.packets > 0
    requires var c := t.chains[BucketOf(t, id)];
             k < |c| && (c == [BLANK] || (Matches(c[k], id) && id in v && c[k].counters == v[id]))
    ensures var b := BucketOf(t, id); var c := t.chains[b]; var c' := c[k := Credit(c[k], id, amounts)];
            && TidyChain(c', b, |t.chains|)
            && Holds(c', id, Plus(Before(v, id), amounts))
            && (forall i :: 0 <= i < |c'| && i != k ==> c'[i] == c[i] && IdIn(c'[i]) != id)
  {
    var b := BucketOf(t, id);
    var c := t.chains[b];
    FoundInTidy(t, v, id);
    assert TidyChain(c, b, |t.chains|);
    var c' := c[k := Credit(c[k], id, amounts)];
    assert !Free(c'[k]) && IdIn(c'[k]) == id && c'[k].counters == Plus(Before(v, id), amounts);
    forall i | 0 <= i < |c'| && i != k ensures IdIn(c'[i]) != id {
      assert i < k || k < i;
    }
  }

  lemma AppendedChain(t: Table, v: View, id: Id, amounts: Amounts)
    requires Tidy(t) && Represents(t, v) && amounts.bytes + amounts.packets > 0 && id !in v
    requires t.chains[BucketOf(t, id)] != [BLANK]
    ensures var b := BucketOf(t, id); var c := t.chains[b]; var c' := c + [Credit(BLANK, id, amounts)];
            && TidyChain(c', b, |t.chains|)
            && Holds(c', id, amounts)
            && (forall i :: 0 <= i < |c| ==> c'[i] == c[i] && IdIn(c'[i]) != id)
  {
    var b := BucketOf(t, id);
    var c := t.chains[b];
    FoundInTidy(t, v, id);
    assert TidyChain(c, b, |t.chains|);
    var c' := c + [Credit(BLANK, id, amounts)];
    assert !Free(c'[|c|]) && IdIn(c'[|c|]) == id && c'[|c|].counters == amounts;
    forall i | 0 <= i < |c| ensures c'[i] == c[i] && IdIn(c'[i]) != id {
      assert !Matches(c[i], id);
    }
  }

  /** `t'` is `t` with one chain replaced, by one that differs in the element
      at `k`, of one key. */
  ghost predicate Replaced(t: Table, t': Table, b: nat, id: Id, k: nat) {
    && Shaped(t) && Shaped(t') && b == BucketOf(t, id)
    && |t'.chains| == |t.chains| && t'.chains == t.chains[b := t'.chains[b]]
    && |t.chains[b]| <= |t'.chains[b]| && k < |t'.chains[b]| && IdIn(t'.chains[b][k]) == id
    && (forall i :: 0 <= i < |t'.chains[b]| && i != k ==>
          i < |t.chains[b]| && t'.chains[b][i] == t.chains[b][i] && IdIn(t'.chains[b][i]) != id)
    && (k < |t.chains[b]| ==> Free(t.chains[b][k]) || IdIn(t.chains[b][k]) == id)
  }

  /** The other keys keep their elements. */
  lemma StillHeld(t: Table, t': Table, v: View, b: nat, id: Id, k: nat, x: Id)
    requires Represents(t, v) && Replaced(t, t', b, id, k) && x in v && x != id
    ensures Holds(t'.chains[BucketOf(t', x)], x, v[x])
  {
    var c := t.chains[BucketOf(t, x)];
    assert Holds(c, x, v[x]);
    var i :| 0 <= i < |c| && !Free(c[i]) && IdIn(c[i]) == x && c[i].counters == v[x];
    assert t'.chains[BucketOf(t', x)][i] == c[i];
  }

  lemma TidyReplaced(t: Table, t': Table, b: nat, id: Id, k: nat)
    requires Tidy(t) && Replaced(t, t', b, id, k) && TidyChain(t'.chains[b], b, |t.chains|)
    ensures Tidy(t')
  {
    hide TidyChain, Free;
    forall b' | 0 <= b' < |t'.chains| ensures TidyChain(t'.chains[b'], b', |t'.chains|) {
      assert b' != b ==> TidyChain(t.chains[b'], b', |t.chains|);
    }
  }

  /** The element at `k` is the one that holds the key. */
  lemma HeldAt(t: Table, t': Table, b: nat, id: Id, k: nat, counters: Amounts)
    requires Replaced(t, t', b, id, k) && Holds(t'.chains[b], id, counters)
    ensures !Free(t'.chains[b][k]) && t'.chains[b][k].counters == counters
  {
    var c := t'.chains[b];
    var i :| 0 <= i < |c| && !Free(c[i]) && IdIn(c[i]) == id && c[i].counters == counters;
  }

  /** Replacing one chain by one that differs in the element of one key. */
  lemma ReplacedChain(t: Table, t': Table, v: View, b: nat, id: Id, k: nat, counters: Amounts)
    requires Tidy(t) && Represents(t, v) && Replaced(t, t', b, id, k)
    requires TidyChain(t'.chains[b], b, |t.chains|) && Holds(t'.chains[b], id, counters)
    ensures Tidy(t') && Represents(t', v[id := counters])
  {
    hide Tidy, TidyChain, Free, Holds;
    var v' := v[id := counters];
    TidyReplaced(t, t', b, id, k);
    HeldAt(t, t', b, id, k, counters);
    forall x | x in v' ensures Holds(t'.chains[BucketOf(t', x)], x, v'[x]) {
      if x != id {
        StillHeld(t, t', v, b, id, k, x);
      }
    }
    forall b', i | 0 <= b' < |t'.chains| && 0 <= i < |t'.chains[b']| && !Free(t'.chains[b'][i])
      ensures IdIn(t'.chains[b'][i]) in v' && v'[IdIn(t'.chains[b'][i])] == t'.chains[b'][i].counters
    {
      OtherBucket(t, t', v, b, id, k, b', i);
    }
  }

  lemma OtherBucket(t: Table, t': Table, v: View, b: nat, id: Id, k: nat, b': nat, i: nat)
    requires Tidy(t) && Represents(t, v) && Replaced(t, t', b, id, k)
    requires b' < |t'.chains| && i < |t'.chains[b']| && !Free(t'.chains[b'][i])
    ensures (b' == b && i == k) ||
            (var e := t'.chains[b'][i]; IdIn(e) != id && IdIn(e) in v && v[IdIn(e)] == e.counters)
  {
    if b' != b {
      assert TidyChain(t.chains[b'], b', |t.chains|);
      assert t'.chains[b'][i] == t.chains[b'][i];
    }
  }

  /** Crediting adds the amounts to the counters of the key; only for an
      absent key and without memory is anything dropped. */
  lemma PlacedRepresents(t: Table, v: View, id: Id, amounts: Amounts, poolSize: nat)
    requires Tidy(t) && Represents(t, v) && poolSize > 0 && amounts.bytes + amounts.packets > 0
    ensures Room(t, id) <==> id in v || t.chains[BucketOf(t, id)] == [BLANK] || CanAllocate(t.space)
    ensures var t' := Placed(t, id, amounts, poolSize);
            && Tidy(t')
            && Represents(t', if Room(t, id) then v[id := Plus(Before(v, id), amounts)] else v)
  {
    hide Tidy, Represents, TidyChain, Holds;
    FoundInTidy(t, v, id);
    TidyIsShaped(t);
    PlacedShaped(t, id, amounts, poolSize);
    var b := BucketOf(t, id);
    var c, t' := t.chains[b], Placed(t, id, amounts, poolSize);
    if c == [BLANK] || id in v {
      var k := FirstSlot(c, id);
      CreditedChain(t, v, id, amounts, k);
      ReplacedChain(t, t', v, b, id, k, Plus(Before(v, id), amounts));
    } else if CanAllocate(t.space) {
      AppendedChain(t, v, id, amounts);
      ReplacedChain(t, t', v, b, id, |c|, amounts);
    } else {
      SameChains(t, t', v);
    }
  }

  lemma TidyIsShaped(t: Table)
    requires Tidy(t)
    ensures Shaped(t)
  {
  }

  lemma SameChains(t: Table, t': Table, v: View)
    requires Tidy(t) && Represents(t, v) && t'.chains == t.chains && Shaped(t')
    ensures Tidy(t') && Represents(t', v)
  {
  }

  // ----- runs; those without class accounting hold the sums of every key

  /** The table after the first `n` records. */
  ghost function TableAfter(t: Table, hash: Hash, countClass: bool, poolSize: nat, records: seq<Record>,
                            n: nat): (t': Table)
    requires Shaped(t) && poolSize > 0 && n <= |records|
    ensures Shaped(t')
  {
    if n == 0 then t
    else
      var before := TableAfter(t, hash, countClass, poolSize, records, n - 1);
      InsertedShaped(before, hash, countClass, poolSize, records[n - 1]);
      Inserted(before, hash, countClass, poolSize, records[n - 1])
  }

  /** The records among the first `n` that found room. */
  ghost function Accounted(t: Table, hash: Hash, poolSize: nat, records: seq<Record>, n: nat): seq<Record>
    requires Shaped(t) && poolSize > 0 && n <= |records|
  {
    if n == 0 then []
    else
      var before, r := Accounted(t, hash, poolSize, records, n - 1), records[n - 1];
      if Room(TableAfter(t, hash, false, poolSize, records, n - 1), IdOf(hash, r)) then before + [r] else before
  }

  /** What the records of one key add up to. */
  function SumFor(records: seq<Record>, hash: Hash, id: Id): Amounts {
    if records == [] then NOTHING
    else
      var r := records[|records| - 1];
      var before := SumFor(records[..|records| - 1], hash, id);
      if IdOf(hash, r) == id then Plus(before, r.own) else before
  }

  /** The sums of all keys. */
  ghost function Sums(records: seq<Record>, hash: Hash): View {
    map id | id in (set r | r in records :: IdOf(hash, r)) :: SumFor(records, hash, id)
  }

  lemma {:induction false} AbsentSum(records: seq<Record>, hash: Hash, id: Id)
    requires forall r :: r in records ==> IdOf(hash, r) != id
    ensures SumFor(records, hash, id) == NOTHING
  {
    if records != [] {
      AbsentSum(records[..|records| - 1], hash, id);
    }
  }

  lemma SumsStep(records: seq<Record>, hash: Hash, r: Record)
    ensures var v := Sums(records, hash);
            Sums(records + [r], hash) == v[IdOf(hash, r) := Plus(Before(v, IdOf(hash, r)), r.own)]
  {
    var v, v', id := Sums(records, hash), Sums(records + [r], hash), IdOf(hash, r);
    assert (records + [r])[..|records|] == records;
    if id !in v {
      AbsentSum(records, hash, id);
    }
    assert r in records + [r];
    assert v'.Keys == v.Keys + {id};
  }

  function EmptyTable(size: nat, space: Space): Table {
    Table(seq(size, _ => [BLANK]), seq(size, _ => None), space)
  }

  lemma EmptyIsTidy(size: nat, space: Space)
    requires size > 0
    ensures Tidy(EmptyTable(size, space)) && Represents(EmptyTable(size, space), map[])
  {
  }

  lemma InsertedRepresents(t: Table, v: View, hash: Hash, poolSize: nat, r: Record)
    requires Tidy(t) && Represents(t, v) && poolSize > 0 && r.own.bytes + r.own.packets > 0
    ensures var t' := Inserted(t, hash, false, poolSize, r); var id := IdOf(hash, r);
            && Tidy(t')
            && Represents(t', if Room(t, id) then v[id := Plus(Before(v, id), r.own)] else v)
            && (!Room(t, id) ==> id !in v)
  {
    PlacedRepresents(t, v, IdOf(hash, r), r.own, poolSize);
  }

  /** After any run the table holds one element per key, and its counters are
      the sums of the key's accounted records. */
  lemma {:induction false} RunHoldsSums(size: nat, space: Space, hash: Hash, poolSize: nat, records: seq<Record>,
                                        n: nat)
    requires size > 0 && poolSize > 0 && n <= |records|
    requires forall i :: 0 <= i < |records| ==> records[i].own.bytes + records[i].own.packets > 0
    ensures Shaped(EmptyTable(size, space))
    ensures var t := TableAfter(EmptyTable(size, space), hash, false, poolSize, records, n);
            Tidy(t) && Represents(t, Sums(Accounted(EmptyTable(size, space), hash, poolSize, records, n), hash))
  {
    hide Tidy, Represents, Inserted, Room, Sums;
    EmptyIsTidy(size, space);
    var t0 := EmptyTable(size, space);
    TidyIsShaped(t0);
    if n == 0 {
      NoSums(hash);
    } else {
      RunHoldsSums(size, space, hash, poolSize, records, n - 1);
      var t := TableAfter(t0, hash, false, poolSize, records, n - 1);
      var accounted := Accounted(t0, hash, poolSize, records, n - 1);
      InsertedRepresents(t, Sums(accounted, hash), hash, poolSize, records[n - 1]);
      SumsStep(accounted, hash, records[n - 1]);
    }
  }

  lemma NoSums(hash: Hash)
    ensures Sums([], hash) == map[]
  {
  }

  /** A record is dropped only if no earlier record of its key has been
      accounted. */
  lemma OnlyAbsentDropped(size: nat, space: Space, hash: Hash, poolSize: nat, records: seq<Record>, n: nat)
    requires size > 0 && poolSize > 0 && n < |records|
    requires forall i :: 0 <= i < |records| ==> records[i].own.bytes + records[i].own.packets > 0
    ensures Shaped(EmptyTable(size, space))
    ensures !Room(TableAfter(EmptyTable(size, space), hash, false, poolSize, records, n), IdOf(hash, records[n])) ==>
              forall r :: r in Accounted(EmptyTable(size, space), hash, poolSize, records, n) ==>
                IdOf(hash, r) != IdOf(hash, records[n])
  {
    hide Tidy, Represents, Room, Inserted;
    RunHoldsSums(size, space, hash, poolSize, records, n);
    var t := TableAfter(EmptyTable(size, space), hash, false, poolSize, records, n);
    var accounted := Accounted(EmptyTable(size, space), hash, poolSize, records, n);
    InsertedRepresents(t, Sums(accounted, hash), hash, poolSize, records[n]);
  }

  /** Looking a key up finds its element. */
  lemma SearchFindsElement(t: Table, v: View, id: Id)
    requires Tidy(t) && Represents(t, v) && id in v
    ensures var c := t.chains[BucketOf(t, id)]; var k := FirstMatch(c, id);
            k < |c| && IdIn(c[k]) == id && c[k].counters == v[id]
  {
    FoundInTidy(t, v, id);
  }

  /** After a run every accounted key is found, with the sums of its
      accounted records. */
  lemma RunFindsSums(size: nat, space: Space, hash: Hash, poolSize: nat, records: seq<Record>, n: nat, r: Record)
    requires size > 0 && poolSize > 0 && n <= |records|
    requires forall i :: 0 <= i < |records| ==> records[i].own.bytes + records[i].own.packets > 0
    requires Shaped(EmptyTable(size, space)) && r in Accounted(EmptyTable(size, space), hash, poolSize, records, n)
    ensures var t := TableAfter(EmptyTable(size, space), hash, false, poolSize, records, n); var id := IdOf(hash, r);
            var c := t.chains[BucketOf(t, id)]; var k := FirstMatch(c, id);
            && k < |c| && IdIn(c[k]) == id
            && c[k].counters == SumFor(Accounted(EmptyTable(size, space), hash, poolSize, records, n), hash, id)
  {
    hide Tidy, Represents, Room, Inserted, Accounted, TableAfter;
    RunHoldsSums(size, space, hash, poolSize, records, n);
    var t := TableAfter(EmptyTable(size, space), hash, false, poolSize, records, n);
    SearchFindsElement(t, Sums(Accounted(EmptyTable(size, space), hash, poolSize, records, n), hash), IdOf(hash, r));
  }

  // ----- tunnel data

  /** Two keys have one element: it is found for both. */
  predicate SameElement(t: Table, id: Id, id': Id)
    requires Shaped(t)
  {
    && BucketOf(t, id) == BucketOf(t, id')
    && FirstMatch(t.chains[BucketOf(t, id)], id) == FirstMatch(t.chains[BucketOf(t, id')], id')
  }

  /** Over any run, records that differ in tunnel data only are kept apart if
      and only if their signatures differ: the comparison of elements does
      not look at tunnel data. */
  lemma TunnelsApartExactly(size: nat, space: Space, hash: Hash, poolSize: nat, records: seq<Record>, n: nat,
                            r: Record, q: Record)
    requires size > 0 && poolSize > 0 && n <= |records|
    requires forall i :: 0 <= i < |records| ==> records[i].own.bytes + records[i].own.packets > 0
    requires Shaped(EmptyTable(size, space))
    requires r in Accounted(EmptyTable(size, space), hash, poolSize, records, n)
    requires q in Accounted(EmptyTable(size, space), hash, poolSize, records, n)
    requires r.prims == q.prims
    ensures SameElement(TableAfter(EmptyTable(size, space), hash, false, poolSize, records, n), IdOf(hash, r),
            IdOf(hash, q))
            <==> hash(r.prims, r.tunnel) == hash(q.prims, q.tunnel)
  {
    hide Accounted, TableAfter;
    RunFindsSums(size, space, hash, poolSize, records, n, r);
    RunFindsSums(size, space, hash, poolSize, records, n, q);
  }

  /** A run of two records with different tunnels but one signature: one
      element holds the sum of both. */
  lemma TunnelsMerged(size: nat, space: Space, hash: Hash, poolSize: nat, p: Primitives, tunnels: (nat, nat),
                      a: Amounts, b: Amounts)
    requires size > 0 && poolSize > 0 && a.bytes > 0 && b.bytes > 0
    requires tunnels.0 != tunnels.1 && hash(p, tunnels.0) == hash(p, tunnels.1)
    ensures Shaped(EmptyTable(size, space))
    ensures var records := [Record(p, tunnels.0, a, NOTHING), Record(p, tunnels.1, b, NOTHING)];
            var t := TableAfter(EmptyTable(size, space), hash, false, poolSize, records, 2);
            var id := IdOf(hash, records[0]);
            var c := t.chains[BucketOf(t, id)];
            && FirstMatch(c, id) < |c| && c[FirstMatch(c, id)].counters == Plus(a, b)
            && SameElement(t, id, IdOf(hash, records[1]))
  {
    hide Tidy, Represents, Room, Inserted, TableAfter;
    var first, second := Record(p, tunnels.0, a, NOTHING), Record(p, tunnels.1, b, NOTHING);
    var records, t0, id := [first, second], EmptyTable(size, space), IdOf(hash, first);
    EmptyIsTidy(size, space);
    TidyIsShaped(t0);
    EmptyHasRoom(size, space, id);
    NextTable(t0, hash, false, poolSize, records, 0);
    NextTable(t0, hash, false, poolSize, records, 1);
    var t1 := Inserted(t0, hash, false, poolSize, first);
    InsertedRepresents(t0, map[], hash, poolSize, first);
    assert Plus(NOTHING, a) == a;
    InsertedRepresents(t1, map[id := a], hash, poolSize, second);
    assert map[id := a][id := Plus(a, b)] == map[id := Plus(a, b)];
    SearchFindsElement(Inserted(t1, hash, false, poolSize, second), map[id := Plus(a, b)], id);
  }

  lemma EmptyHasRoom(size: nat, space: Space, id: Id)
    requires size > 0
    ensures Shaped(EmptyTable(size, space)) && Room(EmptyTable(size, space), id)
  {
  }

  lemma NextTable(t: Table, hash: Hash, countClass: bool, poolSize: nat, records: seq<Record>, n: nat)
    requires Shaped(t) && poolSize > 0 && n < |records|
    ensures TableAfter(t, hash, countClass, poolSize, records, 0) == t
    ensures TableAfter(t, hash, countClass, poolSize, records, n + 1) ==
            Inserted(TableAfter(t, hash, countClass, poolSize, records, n), hash, countClass, poolSize, records[n])
  {
    hide Inserted;
  }

  // ----- the table in memory

  class Accounting {
    const hash: Hash
    const countClass: bool
    const poolSize: nat
    var chains: seq<seq<Element>>
    var lru: seq<Option<nat>>
    var space: Space

    ghost function Now(): Table
      reads this
    {
      Table(chains, lru, space)
    }

    ghost predicate Valid()
      reads this
    {
      Shaped(Now()) && poolSize > 0
    }

    constructor (hash: Hash, countClass: bool, buckets: nat, poolSize: nat, space: Space)
      requires buckets > 0 && poolSize > 0
      ensures Valid() && Now() == EmptyTable(buckets, space)
      ensures this.hash == hash && this.countClass == countClass && this.poolSize == poolSize
    {
      this.hash, this.countClass, this.poolSize, this.space := hash, countClass, poolSize, space;
      chains := seq(buckets, _ => [BLANK]);
      lru := seq(buckets, _ => None);
    }

    /** The first element of the chain that matches; the length of the chain
        if there is none. */
    method Search(id: Id) returns (pos: nat, k: nat)
      requires Valid()
      ensures pos == BucketOf(Now(), id) && k == FirstMatch(chains[pos], id)
    {
      pos := id.signature % |chains|;
      k := 0;
      while k < |chains[pos]| && !Matches(chains[pos][k], id)
        invariant k <= |chains[pos]|
        invariant FirstMatch(chains[pos], id) == k + FirstMatch(chains[pos][k..], id)
      {
        assert chains[pos][k..][1..] == chains[pos][k + 1..];
        k := k + 1;
      }
    }

    /** Moves accumulated amounts out of class zero; returns what is left of
        the record's accumulated amounts. */
    method Debit(r: Record) returns (accumulated: Amounts)
      requires Valid()
      modifies this`chains
      ensures Valid()
      ensures Now() == Debited(old(Now()), hash, countClass, r)
      ensures (if countClass then Plus(r.own, accumulated) else r.own) == Credited(old(Now()), hash, countClass, r)
    {
      accumulated := r.accumulated;
      if countClass && r.accumulated.bytes != 0 && r.prims.cls != 0 {
        var pos, k := Search(ClassZeroId(hash, r));
        if k < |chains[pos]| {
          var e := chains[pos][k];
          var bytes := e.counters.bytes - Min(e.counters.bytes, accumulated.bytes);
          var packets := e.counters.packets - Min(e.counters.packets, accumulated.packets);
          var flows := e.counters.flows - Min(e.counters.flows, accumulated.flows);
          chains := chains[pos := chains[pos][k := e.(counters := Amounts(bytes, packets, flows))]];
        } else {
          accumulated := NOTHING;
        }
      }
    }

    /** Credits amounts: the element used last, else the first element of the
        chain that matches or is free, else a new element. */
    method Place(id: Id, amounts: Amounts)
      requires Valid()
      modifies this`chains, this`lru, this`space
      ensures Valid() && Now() == Placed(old(Now()), id, amounts, poolSize)
    {
      PlacedShaped(Now(), id, amounts, poolSize);
      var pos := id.signature % |chains|;
      var c := chains[pos];
      if lru[pos].Some? && Matches(c[lru[pos].value], id) {
        var k := lru[pos].value;
        chains := chains[pos := c[k := c[k].(counters := Plus(c[k].counters, amounts))]];
        return;
      }
      var k := 0;
      assert c[0..] == c;
      while true
        invariant k < |c| && Valid() && Now() == old(Now())
        invariant FirstSlot(c, id) == k + FirstSlot(c[k..], id)
        decreases |c| - k
      {
        if Matches(c[k], id) {
          chains := chains[pos := c[k := c[k].(counters := Plus(c[k].counters, amounts))]];
          lru := lru[pos := Some(k)];
          return;
        }
        if Free(c[k]) {
          chains := chains[pos := c[k := Credit(c[k], id, amounts)]];
          lru := lru[pos := Some(k)];
          return;
        }
        assert c[k..][1..] == c[k + 1..];
        if k + 1 < |c| {
          k := k + 1;
        } else {
          break;
        }
      }
      var granted := RequestElement();
      if granted {
        chains := chains[pos := c + [Element(id.prims, id.signature, amounts)]];
        lru := lru[pos := Some(|c|)];
      }
    }

    /** Memory for one element, from the current pool or a new one. */
    method RequestElement() returns (granted: bool)
      requires poolSize > 0
      modifies this`space
      ensures granted == CanAllocate(old(space)) && space == AfterRequest(old(space), poolSize)
    {
      if space.noMore {
        return false;
      }
      if space.left > 0 {
        space := space.(left := space.left - 1);
        return true;
      }
      if space.pools == 0 {
        space := space.(noMore := true);
        return false;
      }
      space := Space(poolSize - 1, space.pools - 1, false);
      return true;
    }

    method Insert(r: Record)
      requires Valid()
      modifies this`chains, this`lru, this`space
      ensures Valid() && Now() == Inserted(old(Now()), hash, countClass, poolSize, r)
    {
      var accumulated := Debit(r);
      var amounts := if countClass then Plus(r.own, accumulated) else r.own;
      Place(IdOf(hash, r), amounts);
    }
  }
}
