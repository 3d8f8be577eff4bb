/**
 The accounting table over runs with class accounting: conservation of the
 totals, and one element per key. Both can fail; conditions on the steps say
 exactly when, and short runs from the empty table show it.
 */
module AcctClasses {
  import opened Options
  import opened Traffic
  import opened AcctTable

  // ----- conservation over runs

  function OwnBytes(records: seq<Record>, n: nat): nat
    requires n <= |records|
  {
    if n == 0 then 0 else OwnBytes(records, n - 1) + records[n - 1].own.bytes
  }

  function OwnPackets(records: seq<Record>, n: nat): nat
    requires n <= |records|
  {
    if n == 0 then 0 else OwnPackets(records, n - 1) + records[n - 1].own.packets
  }

  /** Every record finds room. */
  ghost predicate AlwaysRoom(t: Table, hash: Hash, poolSize: nat, records: seq<Record>, n: nat)
    requires Shaped(t) && poolSize > 0 && n <= |records|
  {
    forall i :: 0 <= i < n ==> RoomAfterDebit(TableAfter(t, hash, true, poolSize, records, i), hash, true, records[i])
  }

  ghost predicate BytesAddUp(t: Table, hash: Hash, poolSize: nat, records: seq<Record>, m: nat)
    requires Shaped(t) && poolSize > 0 && m <= |records|
  {
    TotalBytes(TableAfter(t, hash, true, poolSize, records, m).chains) == TotalBytes(t.chains) + OwnBytes(records, m)
  }

  ghost predicate PacketsAddUp(t: Table, hash: Hash, poolSize: nat, records: seq<Record>, m: nat)
    requires Shaped(t) && poolSize > 0 && m <= |records|
  {
    TotalPackets(TableAfter(t, hash, true, poolSize, records, m).chains) ==
        TotalPackets(t.chains) + OwnPackets(records, m)
  }

  ghost predicate StepKeepsBytes(t: Table, hash: Hash, poolSize: nat, records: seq<Record>, i: nat)
    requires Shaped(t) && poolSize > 0 && i < |records|
  {
    KeepsBytes(TableAfter(t, hash, true, poolSize, records, i), hash, true, records[i])
  }

  ghost predicate StepKeepsPackets(t: Table, hash: Hash, poolSize: nat, records: seq<Record>, i: nat)
    requires Shaped(t) && poolSize > 0 && i < |records|
  {
    KeepsPackets(TableAfter(t, hash, true, poolSize, records, i), hash, true, records[i])
  }

  /** Over a run with room, the total of bytes is at all times what was there
      plus the records' own bytes, if and only if every step keeps bytes. */
  lemma {:induction false} RunBytesExactly(t: Table, hash: Hash, poolSize: nat, records: seq<Record>, n: nat)
    requires Shaped(t) && poolSize > 0 && n <= |records| && AlwaysRoom(t, hash, poolSize, records, n)
    ensures (forall m :: 0 <= m <= n ==> BytesAddUp(t, hash, poolSize, records, m)) <==>
            (forall i :: 0 <= i < n ==> StepKeepsBytes(t, hash, poolSize, records, i))
  {
    hide TableAfter, Inserted, TotalBytes, KeepsBytes, RoomAfterDebit;
    if n == 0 {
      TableAtStart(t, hash, true, poolSize, records);
    } else {
      RunBytesExactly(t, hash, poolSize, records, n - 1);
      NextTable(t, hash, true, poolSize, records, n - 1);
      BytesConserved(TableAfter(t, hash, true, poolSize, records, n - 1), hash, true, poolSize, records[n - 1]);
      assert BytesAddUp(t, hash, poolSize, records, n - 1) ==>
          (BytesAddUp(t, hash, poolSize, records, n) <==> StepKeepsBytes(t, hash, poolSize, records, n - 1));
    }
  }

  lemma {:induction false} RunPacketsExactly(t: Table, hash: Hash, poolSize: nat, records: seq<Record>, n: nat)
    requires Shaped(t) && poolSize > 0 && n <= |records| && AlwaysRoom(t, hash, poolSize, records, n)
    ensures (forall m :: 0 <= m <= n ==> PacketsAddUp(t, hash, poolSize, records, m)) <==>
            (forall i :: 0 <= i < n ==> StepKeepsPackets(t, hash, poolSize, records, i))
  {
    hide TableAfter, Inserted, TotalPackets, KeepsPackets, RoomAfterDebit;
    if n == 0 {
      TableAtStart(t, hash, true, poolSize, records);
    } else {
      RunPacketsExactly(t, hash, poolSize, records, n - 1);
      NextTable(t, hash, true, poolSize, records, n - 1);
      PacketsConserved(TableAfter(t, hash, true, poolSize, records, n - 1), hash, true, poolSize, records[n - 1]);
      assert PacketsAddUp(t, hash, poolSize, records, n - 1) ==>
          (PacketsAddUp(t, hash, poolSize, records, n) <==> StepKeepsPackets(t, hash, poolSize, records, n - 1));
    }
  }

  lemma TableAtStart(t: Table, hash: Hash, countClass: bool, poolSize: nat, records: seq<Record>)
    requires Shaped(t) && poolSize > 0
    ensures TableAfter(t, hash, countClass, poolSize, records, 0) == t
  {
  }

  // ----- one element per key

  /** No chain has two elements with one key. */
  ghost predicate UniqueChain(c: seq<Element>) {
    forall i, j :: 0 <= i < j < |c| ==> IdIn(c[i]) != IdIn(c[j])
  }

  ghost predicate UniqueKeys(t: Table) {
    forall b :: 0 <= b < |t.chains| ==> UniqueChain(t.chains[b])
  }

  /** The walk takes over a free element although the key has one further on,
      and the shortcut does not prevent it. */
  predicate TakesOver(t: Table, id: Id)
    requires Shaped(t)
  {
    var c := t.chains[BucketOf(t, id)];
    !ShortcutHits(t, id) && FirstSlot(c, id) < FirstMatch(c, id) < |c|
  }

  /** Crediting the element at `k`, which matches or is taken over. */
  lemma UniqueCredit(c: seq<Element>, k: nat, id: Id, amounts: Amounts)
    requires k < |c| && UniqueChain(c)
    ensures UniqueChain(c[k := Credit(c[k], id, amounts)]) <==>
            forall i :: 0 <= i < |c| && i != k ==> !Matches(c[i], id)
  {
    var c' := c[k := Credit(c[k], id, amounts)];
    assert IdIn(c'[k]) == id;
    if i :| 0 <= i < |c| && i != k && Matches(c[i], id) {
      assert IdIn(c'[i]) == id;
    }
  }

  lemma UniqueAppend(c: seq<Element>, id: Id, amounts: Amounts)
    requires UniqueChain(c) && forall i :: 0 <= i < |c| ==> !Matches(c[i], id)
    ensures UniqueChain(c + [Credit(BLANK, id, amounts)])
  {
    var c' := c + [Credit(BLANK, id, amounts)];
    forall i, j | 0 <= i < j < |c'| ensures IdIn(c'[i]) != IdIn(c'[j]) {
      if j == |c| {
        assert !Matches(c[i], id);
      }
    }
  }

  lemma OneChain(t: Table, t': Table, b: nat)
    requires UniqueKeys(t) && b < |t.chains| == |t'.chains| && t'.chains == t.chains[b := t'.chains[b]]
    ensures UniqueKeys(t') <==> UniqueChain(t'.chains[b])
  {
  }

  /** Where there is one element per key, crediting keeps it so exactly if no
      element is taken over too early. */
  lemma PlacedUnique(t: Table, id: Id, amounts: Amounts, poolSize: nat)
    requires Shaped(t) && UniqueKeys(t) && poolSize > 0
    ensures UniqueKeys(Placed(t, id, amounts, poolSize)) <==> !TakesOver(t, id)
  {
    hide UniqueKeys, UniqueChain;
    var b := BucketOf(t, id);
    var c, t' := t.chains[b], Placed(t, id, amounts, poolSize);
    ChainIsUnique(t, b);
    OneChain(t, t', b);
    if ShortcutHits(t, id) {
      MatchesOnce(c, id, t.lru[b].value);
      UniqueCredit(c, t.lru[b].value, id, amounts);
    } else if FirstSlot(c, id) < |c| {
      var k := FirstSlot(c, id);
      if Matches(c[k], id) {
        MatchesOnce(c, id, k);
      }
      UniqueCredit(c, k, id, amounts);
      assert FirstMatch(c, id) < |c| ==> Matches(c[FirstMatch(c, id)], id);
    } else if CanAllocate(t.space) {
      UniqueAppend(c, id, amounts);
    }
  }

  lemma ChainIsUnique(t: Table, b: nat)
    requires UniqueKeys(t) && b < |t.chains|
    ensures UniqueChain(t.chains[b])
  {
  }

  lemma MatchesOnce(c: seq<Element>, id: Id, k: nat)
    requires UniqueChain(c) && k < |c| && Matches(c[k], id)
    ensures forall i :: 0 <= i < |c| && i != k ==> !Matches(c[i], id)
    ensures FirstMatch(c, id) == k
  {
    forall i | 0 <= i < |c| && i != k ensures !Matches(c[i], id) {
      assert IdIn(c[k]) == id;
      assert i < k || k < i;
    }
  }

  lemma DebitedUnique(t: Table, hash: Hash, countClass: bool, r: Record)
    requires Shaped(t) && UniqueKeys(t)
    ensures UniqueKeys(Debited(t, hash, countClass, r))
  {
    var t' := Debited(t, hash, countClass, r);
    forall b | 0 <= b < |t'.chains| ensures UniqueChain(t'.chains[b]) {
      assert UniqueChain(t.chains[b]);
      assert forall i :: 0 <= i < |t.chains[b]| ==> IdIn(t'.chains[b][i]) == IdIn(t.chains[b][i]);
    }
  }

  /** The walk of an insertion takes over an element too early. */
  ghost predicate StepTakesOver(t: Table, hash: Hash, countClass: bool, r: Record)
    requires Shaped(t)
  {
    InsertedShaped(t, hash, countClass, 1, r);
    TakesOver(Debited(t, hash, countClass, r), IdOf(hash, r))
  }

  lemma InsertedUnique(t: Table, hash: Hash, countClass: bool, poolSize: nat, r: Record)
    requires Shaped(t) && UniqueKeys(t) && poolSize > 0
    ensures UniqueKeys(Inserted(t, hash, countClass, poolSize, r)) <==> !StepTakesOver(t, hash, countClass, r)
  {
    hide UniqueKeys, TakesOver, Placed, Debited;
    InsertedShaped(t, hash, countClass, poolSize, r);
    DebitedUnique(t, hash, countClass, r);
    PlacedUnique(Debited(t, hash, countClass, r), IdOf(hash, r), Credited(t, hash, countClass, r), poolSize);
  }

  /** Over any run, with class accounting or without, there is at all times
      one element per key if and only if no step takes over too early. */
  lemma {:induction false} RunUniqueExactly(t: Table, hash: Hash, countClass: bool, poolSize: nat,
                                            records: seq<Record>, n: nat)
    requires Shaped(t) && UniqueKeys(t) && poolSize > 0 && n <= |records|
    ensures (forall m :: 0 <= m <= n ==> UniqueKeys(TableAfter(t, hash, countClass, poolSize, records, m))) <==>
            (forall i :: 0 <= i < n ==>
               !StepTakesOver(TableAfter(t, hash, countClass, poolSize, records, i), hash, countClass, records[i]))
  {
    hide UniqueKeys, StepTakesOver, Inserted, TableAfter;
    if n == 0 {
      TableAtStart(t, hash, countClass, poolSize, records);
    } else {
      RunUniqueExactly(t, hash, countClass, poolSize, records, n - 1);
      NextTable(t, hash, countClass, poolSize, records, n - 1);
      var before := TableAfter(t, hash, countClass, poolSize, records, n - 1);
      if UniqueKeys(before) {
        InsertedUnique(before, hash, countClass, poolSize, records[n - 1]);
      }
    }
  }

  // ----- what one insertion does to every element

  /** The element at position `k` of bucket `b` is the one of a key. */
  predicate IsElementOf(t: Table, b: nat, k: nat, id: Id)
    requires b < |t.chains| && k < |t.chains[b]|
  {
    var e := t.chains[b][k];
    b == id.signature % |t.chains| && e.signature == id.signature && e.prims == id.prims
  }

  ghost predicate HasElement(t: Table, id: Id) {
    exists b: nat, k: nat :: b < |t.chains| && k < |t.chains[b]| && IsElementOf(t, b, k, id)
  }

  function LessAtMost(x: nat, y: nat): nat {
    if x > y then x - y else 0
  }

  /** The key of the same traffic without a class. */
  function WithoutClass(hash: Hash, r: Record): Id {
    Id(Primitives(0, r.prims.others), hash(Primitives(0, r.prims.others), r.tunnel))
  }

  /** Every element after a transfer: that of the class-zero key has the
      accumulated bytes, packets and flows taken off, as far as it holds
      them; no other has changed. */
  ghost predicate Transferred(t: Table, t': Table, id: Id, acc: Amounts) {
    && t'.lru == t.lru && t'.space == t.space && |t'.chains| == |t.chains|
    && (forall b :: 0 <= b < |t.chains| ==> |t'.chains[b]| == |t.chains[b]|)
    && forall b, k :: 0 <= b < |t.chains| && 0 <= k < |t.chains[b]| ==>
         var e := t.chains[b][k];
         t'.chains[b][k] ==
         if IsElementOf(t, b, k, id) then
           Element(e.prims, e.signature, Amounts(LessAtMost(e.counters.bytes, acc.bytes),
                                                 LessAtMost(e.counters.packets, acc.packets),
                                                 LessAtMost(e.counters.flows, acc.flows)))
         else e
  }

  lemma FoundIsElement(t: Table, id: Id)
    requires Shaped(t)
    ensures var b := BucketOf(t, id); var k := FirstMatch(t.chains[b], id);
            && (k < |t.chains[b]| ==> IsElementOf(t, b, k, id))
            && (k == |t.chains[b]| <==> !HasElement(t, id))
  {
    var b := BucketOf(t, id);
    var k := FirstMatch(t.chains[b], id);
    if k < |t.chains[b]| {
      assert IsElementOf(t, b, k, id);
    }
    if HasElement(t, id) {
      var b': nat, k': nat :| b' < |t.chains| && k' < |t.chains[b']| && IsElementOf(t, b', k', id);
      assert Matches(t.chains[b][k'], id);
    }
  }

  lemma OnlyElement(t: Table, id: Id, b: nat, k: nat, b': nat, k': nat)
    requires Shaped(t) && UniqueKeys(t) && b < |t.chains| && k < |t.chains[b]| && b' < |t.chains| && k' < |t.chains[b']|
    requires IsElementOf(t, b, k, id) && IsElementOf(t, b', k', id)
    ensures b == b' && k == k'
  {
    assert UniqueChain(t.chains[b]);
    assert IdIn(t.chains[b][k]) == IdIn(t.chains[b][k']);
  }

  /** A classed record takes what was accumulated from the class-zero element
      of its key, and from no other; nothing else takes anything. */
  lemma TransferExactly(t: Table, hash: Hash, countClass: bool, r: Record)
    requires Shaped(t) && UniqueKeys(t)
    ensures if countClass && r.prims.cls != 0 && r.accumulated.bytes != 0
            then Transferred(t, Debited(t, hash, countClass, r), WithoutClass(hash, r), r.accumulated)
            else Debited(t, hash, countClass, r) == t
  {
    if countClass && r.prims.cls != 0 && r.accumulated.bytes != 0 {
      var id, t' := WithoutClass(hash, r), Debited(t, hash, countClass, r);
      assert id == ClassZeroId(hash, r);
      FoundIsElement(t, id);
      var b0, k0 := BucketOf(t, id), FirstMatch(t.chains[BucketOf(t, id)], id);
      forall b, k | 0 <= b < |t.chains| && 0 <= k < |t.chains[b]| && IsElementOf(t, b, k, id)
        ensures k0 < |t.chains[b0]| && b == b0 && k == k0
      {
        OnlyElement(t, id, b0, k0, b, k);
      }
    }
  }

  /** The amounts a record is credited with: its own, and those accumulated
      unless there is no class-zero element to take them from. */
  lemma CreditedExactly(t: Table, hash: Hash, countClass: bool, r: Record)
    requires Shaped(t)
    ensures var moved := countClass && (r.prims.cls == 0 || r.accumulated.bytes == 0 ||
                                        HasElement(t, WithoutClass(hash, r)));
            Credited(t, hash, countClass, r) ==
            Amounts(r.own.bytes + (if moved then r.accumulated.bytes else 0),
                    r.own.packets + (if moved then r.accumulated.packets else 0),
                    r.own.flows + (if moved then r.accumulated.flows else 0))
  {
    FoundIsElement(t, WithoutClass(hash, r));
    assert WithoutClass(hash, r) == ClassZeroId(hash, r);
  }

  /** `t'` is `t` with one element replaced, which is now the one used last. */
  ghost predicate OneElementIs(t: Table, t': Table, b: nat, k: nat, e: Element) {
    && b < |t.chains| && k < |t.chains[b]|
    && t'.chains == t.chains[b := t.chains[b][k := e]]
    && b < |t.lru| && t'.lru == t.lru[b := Some(k)]
  }

  function Sum(e: Element, amounts: Amounts): Amounts {
    Amounts(e.counters.bytes + amounts.bytes, e.counters.packets + amounts.packets, e.counters.flows + amounts.flows)
  }

  predicate Unused(e: Element) {
    e.counters.bytes == 0 && e.counters.packets == 0
  }

  /** Crediting a key that has an element adds to its element; otherwise the
      first unused element of its chain becomes the element of the key;
      otherwise a new one does, if there is memory. */
  lemma PlacedExactly(t: Table, id: Id, amounts: Amounts, poolSize: nat)
    requires Shaped(t) && UniqueKeys(t) && poolSize > 0 && !TakesOver(t, id)
    ensures var t', b := Placed(t, id, amounts, poolSize), id.signature % |t.chains|;
            && (forall k: nat :: k < |t.chains[b]| && IsElementOf(t, b, k, id) ==>
                  OneElementIs(t, t', b, k, Element(id.prims, id.signature, Sum(t.chains[b][k], amounts))))
            && (!HasElement(t, id) ==>
                  && (forall k: nat :: FirstUnused(t.chains[b], k) ==>
                        OneElementIs(t, t', b, k, Element(id.prims, id.signature, Sum(t.chains[b][k], amounts))))
                  && (NoneUnused(t.chains[b]) ==>
                        t'.chains == if Capacity(t.space, poolSize) > 0
                                     then t.chains[b := t.chains[b] + [Element(id.prims, id.signature, amounts)]]
                                     else t.chains))
  {
    var t', b := Placed(t, id, amounts, poolSize), id.signature % |t.chains|;
    var c := t.chains[b];
    FoundIsElement(t, id);
    MemoryExactly(t.space, poolSize);
    forall k: nat | k < |c| && IsElementOf(t, b, k, id)
      ensures OneElementIs(t, t', b, k, Element(id.prims, id.signature, Sum(c[k], amounts)))
    {
      ChainIsUnique(t, b);
      MatchesOnce(c, id, k);
      if ShortcutHits(t, id) {
        MatchesOnce(c, id, t.lru[b].value);
      }
    }
    if !HasElement(t, id) {
      forall k: nat | FirstUnused(c, k)
        ensures OneElementIs(t, t', b, k, Element(id.prims, id.signature, Sum(c[k], amounts)))
      {
        assert FirstSlot(c, id) == k;
      }
    }
  }

  ghost predicate FirstUnused(c: seq<Element>, k: nat) {
    k < |c| && Unused(c[k]) && forall i :: 0 <= i < k ==> !Unused(c[i])
  }

  ghost predicate NoneUnused(c: seq<Element>) {
    forall i :: 0 <= i < |c| ==> !Unused(c[i])
  }

  /** How many elements there is memory for. */
  function Capacity(s: Space, poolSize: nat): nat {
    if s.noMore then 0 else s.left + s.pools * poolSize
  }

  /** A request is granted while there is memory, and takes one element of
      it. */
  lemma MemoryExactly(s: Space, poolSize: nat)
    requires poolSize > 0
    ensures CanAllocate(s) <==> Capacity(s, poolSize) > 0
    ensures Capacity(AfterRequest(s, poolSize), poolSize) ==
            if Capacity(s, poolSize) > 0 then Capacity(s, poolSize) - 1 else 0
  {
    if s.pools > 0 {
      assert s.pools * poolSize == (s.pools - 1) * poolSize + poolSize;
    }
  }

  // ----- runs that show the failures

  const ONE_SIGNATURE: Hash := (p: Primitives, tunnel: nat) => 0

  /** A record of one conversation in class `cls`. */
  function Of(cls: nat, bytes: nat, packets: nat, accBytes: nat, accPackets: nat): Record {
    Record(Primitives(cls, 7), 0, Amounts(bytes, packets, 0), Amounts(accBytes, accPackets, 0))
  }

  function ElementOf(cls: nat, bytes: nat, packets: nat): Element {
    Element(Primitives(cls, 7), 0, Amounts(bytes, packets, 0))
  }

  /** A table with a single bucket, the element at `k` used last. */
  function Single(c: seq<Element>, k: nat, space: Space): Table {
    Table([c], [Some(k)], space)
  }

  ghost function After(space: Space, records: seq<Record>): Table {
    TableAfter(EmptyTable(1, space), ONE_SIGNATURE, true, 1, records, |records|)
  }

  lemma AfterOne(space: Space, a: Record)
    ensures After(space, [a]) == Inserted(EmptyTable(1, space), ONE_SIGNATURE, true, 1, a)
  {
    hide Inserted;
    NextTable(EmptyTable(1, space), ONE_SIGNATURE, true, 1, [a], 0);
  }

  lemma {:induction false} SamePrefix(t: Table, records: seq<Record>, more: seq<Record>, n: nat)
    requires Shaped(t) && n <= |records|
    ensures TableAfter(t, ONE_SIGNATURE, true, 1, records + more, n) ==
            TableAfter(t, ONE_SIGNATURE, true, 1, records, n)
  {
    hide Inserted;
    if n > 0 {
      SamePrefix(t, records, more, n - 1);
    }
  }

  lemma AfterMore(space: Space, records: seq<Record>, r: Record)
    ensures Shaped(After(space, records))
    ensures After(space, records + [r]) == Inserted(After(space, records), ONE_SIGNATURE, true, 1, r)
  {
    hide Inserted;
    SamePrefix(EmptyTable(1, space), records, [r], |records|);
    NextTable(EmptyTable(1, space), ONE_SIGNATURE, true, 1, records + [r], |records|);
  }

  function KeyOf(cls: nat): Id {
    Id(Primitives(cls, 7), 0)
  }

  lemma KeysOf(r: Record)
    requires r.prims.others == 7
    ensures IdOf(ONE_SIGNATURE, r) == KeyOf(r.prims.cls) && ClassZeroId(ONE_SIGNATURE, r) == KeyOf(0)
  {
  }

  /** Crediting in a single bucket: at the element used last, at the first
      slot of the walk, in a new element, or not at all. */
  lemma CreditSingle(c: seq<Element>, last: nat, space: Space, cls: nat, amounts: Amounts, k: nat)
    requires last < |c| && k <= |c|
    requires if Matches(c[last], KeyOf(cls)) then k == last
             else (forall i :: 0 <= i < k ==> !Matches(c[i], KeyOf(cls)) && !Free(c[i])) &&
                  (k < |c| ==> Matches(c[k], KeyOf(cls)) || Free(c[k]))
    ensures Shaped(Single(c, last, space))
    ensures Placed(Single(c, last, space), KeyOf(cls), amounts, 1) ==
            if k < |c| then Single(c[k := Credit(c[k], KeyOf(cls), amounts)], k, space)
            else if CanAllocate(space) then Single(c + [Credit(BLANK, KeyOf(cls), amounts)], k, AfterRequest(space, 1))
            else Single(c, last, AfterRequest(space, 1))
  {
    hide Matches, Free, Credit;
    var t := Single(c, last, space);
    assert BucketOf(t, KeyOf(cls)) == 0;
  }

  /** Taking from the class-zero element at the front of a single bucket. */
  lemma DebitSingle(c: seq<Element>, last: nat, space: Space, r: Record)
    requires last < |c| && r.prims.others == 7 && Matches(c[0], KeyOf(0))
    ensures Shaped(Single(c, last, space))
    ensures var t := Single(c, last, space);
            && Debited(t, ONE_SIGNATURE, true, r) ==
               (if Transfers(true, r)
                then Single(c[0 := c[0].(counters := Minus(c[0].counters, r.accumulated))], last, space) else t)
            && Credited(t, ONE_SIGNATURE, true, r) == Plus(r.own, r.accumulated)
  {
    hide Matches, Minus, Plus;
    var t := Single(c, last, space);
    KeysOf(r);
    assert BucketOf(t, KeyOf(0)) == 0 && FirstMatch(c, KeyOf(0)) == 0;
  }

  lemma FirstRecord(space: Space, cls: nat, bytes: nat, packets: nat)
    requires bytes > 0
    ensures After(space, [Of(cls, bytes, packets, 0, 0)]) == Single([ElementOf(cls, bytes, packets)], 0, space)
  {
    var t, r := EmptyTable(1, space), Of(cls, bytes, packets, 0, 0);
    AfterOne(space, r);
    KeysOf(r);
    assert t == Table([[BLANK]], [None], space);
    assert BucketOf(t, KeyOf(cls)) == 0 && FirstSlot([BLANK], KeyOf(cls)) == 0;
    assert Credit(BLANK, KeyOf(cls), r.own) == ElementOf(cls, bytes, packets);
    assert [BLANK][0 := ElementOf(cls, bytes, packets)] == [ElementOf(cls, bytes, packets)];
  }

  /** An insertion into a single bucket with the class-zero element in front. */
  lemma InsertSingle(c: seq<Element>, last: nat, space: Space, r: Record, c': seq<Element>, k: nat)
    requires last < |c| && r.prims.others == 7 && Matches(c[0], KeyOf(0)) && |c'| == |c| && k <= |c|
    requires c'[0] == if Transfers(true, r) then c[0].(counters := Minus(c[0].counters, r.accumulated)) else c[0]
    requires forall i :: 0 < i < |c| ==> c'[i] == c[i]
    requires if Matches(c'[last], KeyOf(r.prims.cls)) then k == last
             else (forall i :: 0 <= i < k ==> !Matches(c'[i], KeyOf(r.prims.cls)) && !Free(c'[i])) &&
                  (k < |c| ==> Matches(c'[k], KeyOf(r.prims.cls)) || Free(c'[k]))
    ensures Shaped(Single(c, last, space))
    ensures var amounts := Plus(r.own, r.accumulated);
            Inserted(Single(c, last, space), ONE_SIGNATURE, true, 1, r) ==
            if k < |c| then Single(c'[k := Credit(c'[k], KeyOf(r.prims.cls), amounts)], k, space)
            else if CanAllocate(space)
            then Single(c' + [Credit(BLANK, KeyOf(r.prims.cls), amounts)], k, AfterRequest(space, 1))
            else Single(c', last, AfterRequest(space, 1))
  {
    hide Matches, Free, Credit, Minus, Plus, Placed, Debited, Credited;
    DebitSingle(c, last, space, r);
    KeysOf(r);
    CreditSingle(c', last, space, r.prims.cls, Plus(r.own, r.accumulated), k);
    assert c' == c[0 := c'[0]];
    assert Transfers(true, r) || c' == c;
  }

  /** ... when the element at `k` is credited; `d` is the chain after it. */
  lemma InsertAt(c: seq<Element>, last: nat, space: Space, r: Record, c': seq<Element>, k: nat, d: seq<Element>)
    requires last < |c| && r.prims.others == 7 && Matches(c[0], KeyOf(0)) && |d| == |c'| == |c| && k < |c|
    requires c'[0] == if Transfers(true, r) then c[0].(counters := Minus(c[0].counters, r.accumulated)) else c[0]
    requires forall i :: 0 < i < |c| ==> c'[i] == c[i]
    requires if Matches(c'[last], KeyOf(r.prims.cls)) then k == last
             else (forall i :: 0 <= i < k ==> !Matches(c'[i], KeyOf(r.prims.cls)) && !Free(c'[i])) &&
                  (Matches(c'[k], KeyOf(r.prims.cls)) || Free(c'[k]))
    requires d[k] == Credit(c'[k], KeyOf(r.prims.cls), Plus(r.own, r.accumulated))
    requires forall i :: 0 <= i < |c| && i != k ==> d[i] == c'[i]
    ensures Shaped(Single(c, last, space))
    ensures Inserted(Single(c, last, space), ONE_SIGNATURE, true, 1, r) == Single(d, k, space)
  {
    hide Matches, Free, Credit, Minus, Plus, Inserted;
    InsertSingle(c, last, space, r, c', k);
    assert c'[k := d[k]] == d;
  }

  lemma TotalOfSingle(c: seq<Element>, last: nat, space: Space)
    ensures TotalBytes(Single(c, last, space).chains) == SumBytes(c)
    ensures TotalPackets(Single(c, last, space).chains) == SumPackets(c)
  {
    assert [c][..0] == [];
  }

  lemma SumOfTwo(e: Element, f: Element)
    ensures SumBytes([e]) == e.counters.bytes && SumPackets([e]) == e.counters.packets
    ensures SumBytes([e, f]) == e.counters.bytes + f.counters.bytes
    ensures SumPackets([e, f]) == e.counters.packets + f.counters.packets
  {
    assert [e][..0] == [] && [e, f][..1] == [e];
  }

  lemma OwnOfTwo(a: Record, b: Record)
    ensures OwnBytes([a, b], 2) == a.own.bytes + b.own.bytes
    ensures OwnPackets([a, b], 2) == a.own.packets + b.own.packets
  {
    assert OwnBytes([a, b], 1) == a.own.bytes && OwnPackets([a, b], 1) == a.own.packets;
  }

  lemma TakenOverAlone(space: Space, b: nat, p: nat, r: Record)
    requires b > 0 && r.prims == Primitives(1, 7) && r.own.flows == r.accumulated.flows == 0
    requires r.accumulated.bytes >= b && r.accumulated.packets >= p
    ensures var t := Single([ElementOf(0, b, p)], 0, space);
            && Shaped(t)
            && Inserted(t, ONE_SIGNATURE, true, 1, r) ==
               Single([ElementOf(1, r.own.bytes + r.accumulated.bytes, r.own.packets + r.accumulated.packets)], 0,
                   space)
  {
    hide Inserted;
    InsertAt([ElementOf(0, b, p)], 0, space, r, [ElementOf(0, 0, 0)], 0,
             [ElementOf(1, r.own.bytes + r.accumulated.bytes, r.own.packets + r.accumulated.packets)]);
  }

  /** Class zero holds `b` bytes, more were accumulated: the rest of them is
      invented. */
  lemma BytesInvented(space: Space, b: nat, p: nat, own: (nat, nat), acc: (nat, nat))
    requires 0 < b < acc.0 && p <= acc.1
    ensures var records := [Of(0, b, p, 0, 0), Of(1, own.0, own.1, acc.0, acc.1)];
            TotalBytes(After(space, records).chains) == OwnBytes(records, 2) + (acc.0 - b)
  {
    hide After, TotalBytes, SumBytes, OwnBytes, Inserted;
    var first, second := Of(0, b, p, 0, 0), Of(1, own.0, own.1, acc.0, acc.1);
    FirstRecord(space, 0, b, p);
    AfterMore(space, [first], second);
    assert [first] + [second] == [first, second];
    TakenOverAlone(space, b, p, second);
    var e := ElementOf(1, own.0 + acc.0, own.1 + acc.1);
    TotalOfSingle([e], 0, space);
    SumOfTwo(e, e);
    OwnOfTwo(first, second);
  }

  /** Accumulated packets without accumulated bytes are credited though they
      are not taken from class zero. */
  lemma PacketsInvented(space: Space, b: nat, p: nat, own: (nat, nat), packets: nat)
    requires CanAllocate(space) && b > 0
    ensures var records := [Of(0, b, p, 0, 0), Of(1, own.0, own.1, 0, packets)];
            TotalPackets(After(space, records).chains) == OwnPackets(records, 2) + packets
  {
    hide After, TotalPackets, SumPackets, OwnPackets, Inserted;
    var first, second := Of(0, b, p, 0, 0), Of(1, own.0, own.1, 0, packets);
    FirstRecord(space, 0, b, p);
    AfterMore(space, [first], second);
    assert [first] + [second] == [first, second];
    var c, e := [ElementOf(0, b, p)], ElementOf(1, own.0, own.1 + packets);
    InsertSingle(c, 0, space, second, c, 1);
    assert Credit(BLANK, KeyOf(1), Plus(second.own, second.accumulated)) == e;
    assert c + [e] == [c[0], e];
    TotalOfSingle([c[0], e], 1, AfterRequest(space, 1));
    SumOfTwo(c[0], e);
    OwnOfTwo(first, second);
  }

  /** Without memory for a new element the record is dropped, and the bytes
      and packets moved for it are lost. */
  lemma TransferLost(space: Space, b: nat, p: nat, own: (nat, nat), acc: (nat, nat))
    requires !CanAllocate(space) && 0 < acc.0 < b && acc.1 <= p
    ensures var records := [Of(0, b, p, 0, 0), Of(1, own.0, own.1, acc.0, acc.1)];
            && TotalBytes(After(space, records[..1]).chains) == b
            && TotalPackets(After(space, records[..1]).chains) == p
            && TotalBytes(After(space, records).chains) == b - acc.0
            && TotalPackets(After(space, records).chains) == p - acc.1
  {
    hide After, TotalBytes, TotalPackets, SumBytes, SumPackets, Inserted;
    var first, second := Of(0, b, p, 0, 0), Of(1, own.0, own.1, acc.0, acc.1);
    FirstRecord(space, 0, b, p);
    AfterMore(space, [first], second);
    assert [first] + [second] == [first, second] && [first, second][..1] == [first];
    var e, e' := ElementOf(0, b, p), ElementOf(0, b - acc.0, p - acc.1);
    InsertSingle([e], 0, space, second, [e'], 1);
    TotalOfSingle([e], 0, space);
    TotalOfSingle([e'], 0, AfterRequest(space, 1));
    SumOfTwo(e, e');
    SumOfTwo(e', e);
  }

  /** A run after which one key has two elements: the transfer frees the
      class-zero element in front of the element of the class. */
  lemma TwoElements(space: Space, b: nat, own: nat)
    requires CanAllocate(space) && b > 0
    ensures var records := [Of(0, b, 1, 0, 0), Of(1, b, 1, 0, 0), Of(0, b, 1, 0, 0), Of(1, own, 1, 2 * b, 2)];
            && After(space, records).chains == [[ElementOf(1, own + 2 * b, 3), ElementOf(1, b, 1)]]
            && UniqueKeys(EmptyTable(1, space)) && !UniqueKeys(After(space, records))
  {
    hide After, Inserted;
    var zero, one, last := Of(0, b, 1, 0, 0), Of(1, b, 1, 0, 0), Of(1, own, 1, 2 * b, 2);
    var left := AfterRequest(space, 1);
    FirstRecord(space, 0, b, 1);
    AfterMore(space, [zero], one);
    SecondClass(space, b);
    AfterMore(space, [zero] + [one], zero);
    ClassZeroAgain(left, b);
    AfterMore(space, [zero] + [one] + [zero], last);
    EarlyTakeOver(left, b, own);
    assert [zero] + [one] + [zero] + [last] == [zero, one, zero, last];
    var chain, t := [ElementOf(1, own + 2 * b, 3), ElementOf(1, b, 1)], After(space, [zero, one, zero, last]);
    assert IdIn(chain[0]) == IdIn(chain[1]) && !UniqueChain(chain);
    assert t == Single(chain, 0, left) && t.chains[0] == chain;
  }

  lemma SecondClass(space: Space, b: nat)
    requires CanAllocate(space) && b > 0
    ensures Shaped(Single([ElementOf(0, b, 1)], 0, space))
    ensures Inserted(Single([ElementOf(0, b, 1)], 0, space), ONE_SIGNATURE, true, 1, Of(1, b, 1, 0, 0)) ==
            Single([ElementOf(0, b, 1), ElementOf(1, b, 1)], 1, AfterRequest(space, 1))
  {
    hide Inserted;
    var c := [ElementOf(0, b, 1)];
    InsertSingle(c, 0, space, Of(1, b, 1, 0, 0), c, 1);
    var e := Credit(BLANK, KeyOf(1), Plus(Amounts(b, 1, 0), NOTHING));
    assert e == ElementOf(1, b, 1);
    assert c + [e] == [ElementOf(0, b, 1), ElementOf(1, b, 1)];
  }

  lemma ClassZeroAgain(space: Space, b: nat)
    requires b > 0
    ensures var t := Single([ElementOf(0, b, 1), ElementOf(1, b, 1)], 1, space);
            && Shaped(t)
            && Inserted(t, ONE_SIGNATURE, true, 1, Of(0, b, 1, 0, 0)) ==
               Single([ElementOf(0, 2 * b, 2), ElementOf(1, b, 1)], 0, space)
  {
    hide Inserted;
    var c := [ElementOf(0, b, 1), ElementOf(1, b, 1)];
    InsertAt(c, 1, space, Of(0, b, 1, 0, 0), c, 0, [ElementOf(0, 2 * b, 2), ElementOf(1, b, 1)]);
  }

  /** The step at which it happens. */
  lemma EarlyTakeOver(space: Space, b: nat, own: nat)
    requires b > 0
    ensures var t := Single([ElementOf(0, 2 * b, 2), ElementOf(1, b, 1)], 0, space);
            && Shaped(t)
            && Inserted(t, ONE_SIGNATURE, true, 1, Of(1, own, 1, 2 * b, 2)) ==
               Single([ElementOf(1, own + 2 * b, 3), ElementOf(1, b, 1)], 0, space)
  {
    hide Inserted;
    var c, c' := [ElementOf(0, 2 * b, 2), ElementOf(1, b, 1)], [ElementOf(0, 0, 0), ElementOf(1, b, 1)];
    InsertAt(c, 0, space, Of(1, own, 1, 2 * b, 2), c', 0, [ElementOf(1, own + 2 * b, 3), ElementOf(1, b, 1)]);
  }
}
