/**
 Purging the SQL cache into tables with variable names: every round writes
 the elements that belong to the table of the first element and leaves the
 others pending for the next round.
 */
module SqlPurge {
  import opened Selection


  /** A queued element: the name its table gets when variables are
      substituted, and whether it is valid. */
  datatype Element = Element(table: string, valid: bool, content: int)

  datatype Write = Write(table: string, element: Element)

  /** How table names are handled: a fixed table; one variable table per
      purge; or a variable table per element. */
  datatype Mode = Fixed(table: string) | PerPurge | PerElement

  // ----- one round

  /** The elements a round to table `name` leaves for later. */
  function Left(q: seq<Element>, name: string): seq<Element> {
    if q == [] then []
    else
      var before, e := Left(q[..|q| - 1], name), q[|q| - 1];
      if e.table != name then before + [e] else before
  }

  /** The elements it takes, of which only the valid ones are written. */
  function Taken(q: seq<Element>, name: string): seq<Write> {
    if q == [] then []
    else
      var before, e := Taken(q[..|q| - 1], name), q[|q| - 1];
      if e.table == name && e.valid then before + [Write(name, e)] else before
  }

  /** Without splitting, all valid elements go to one table. */
  function TakenAll(q: seq<Element>, name: string): seq<Write> {
    if q == [] then []
    else
      var before, e := TakenAll(q[..|q| - 1], name), q[|q| - 1];
      if e.valid then before + [Write(name, e)] else before
  }

  lemma {:induction false} LeftAtMost(q: seq<Element>, name: string)
    ensures |Left(q, name)| <= |q|
    ensures (exists i :: 0 <= i < |q| && q[i].table == name) ==> |Left(q, name)| < |q|
  {
    if q != [] {
      LeftAtMost(q[..|q| - 1], name);
      if i :| 0 <= i < |q| && q[i].table == name && i < |q| - 1 {
        assert q[..|q| - 1][i] == q[i];
      }
    }
  }

  /** The first element always belongs to its own round. */
  lemma RoundShrinks(q: seq<Element>)
    requires q != []
    ensures |Left(q, q[0].table)| < |q|
  {
    LeftAtMost(q, q[0].table);
  }

  /** All rounds of a purge that splits by element. */
  ghost function Rounds(q: seq<Element>): seq<Write>
    decreases |q|
  {
    if q == [] then []
    else
      RoundShrinks(q);
      Taken(q, q[0].table) + Rounds(Left(q, q[0].table))
  }

  ghost function RoundCount(q: seq<Element>): nat
    decreases |q|
  {
    if q == [] then 0
    else
      RoundShrinks(q);
      1 + RoundCount(Left(q, q[0].table))
  }

  /** One round to table `name`: what it writes and what it leaves pending. */
  method Round(queue: seq<Element>, name: string, split: bool) returns (writes: seq<Write>, pending: seq<Element>)
    ensures split ==> writes == Taken(queue, name) && pending == Left(queue, name)
    ensures !split ==> writes == TakenAll(queue, name) && pending == []
  {
    writes, pending := [], [];
    for current := 0 to |queue|
      invariant split ==> pending == Left(queue[..current], name) && writes == Taken(queue[..current], name)
      invariant !split ==> pending == [] && writes == TakenAll(queue[..current], name)
    {
      assert queue[..current + 1][..current] == queue[..current];
      var e := queue[current];
      if split && e.table != name {
        pending := pending + [e];
      } else if e.valid {
        writes := writes + [Write(name, e)];
      }
    }
    assert queue[..|queue|] == queue;
  }

  lemma NoRounds()
    ensures Rounds([]) == [] && RoundCount([]) == 0
  {
  }

  /** What is still to be written after a round. */
  lemma RoundsStep(q: seq<Element>, before: seq<Write>)
    requires q != []
    ensures before + Rounds(q) == before + Taken(q, q[0].table) + Rounds(Left(q, q[0].table))
    ensures RoundCount(q) == 1 + RoundCount(Left(q, q[0].table))
    ensures |Left(q, q[0].table)| < |q|
  {
    RoundShrinks(q);
    assert before + (Taken(q, q[0].table) + Rounds(Left(q, q[0].table)))
        == before + Taken(q, q[0].table) + Rounds(Left(q, q[0].table));
  }

  // ----- what a purge achieves, told by the positions in the cache

  function ElementsOf(w: seq<Write>): seq<Element> {
    seq(|w|, k requires 0 <= k < |w| => w[k].element)
  }

  predicate IsValid(e: Element) {
    e.valid
  }

  function ValidFor(name: string): Element -> bool {
    (e: Element) => e.valid && e.table == name
  }

  function WrittenInto(name: string): Write -> bool {
    (w: Write) => w.table == name
  }

  /** All valid elements are written to one table, in the order of the cache. */
  ghost predicate WrittenToOne(cache: seq<Element>, writes: seq<Write>, name: string) {
    && (forall k :: 0 <= k < |writes| ==> writes[k].table == name)
    && Selects(cache, IsValid, ElementsOf(writes))
  }

  /** Every write is of a valid element to its own table, and each table gets
      all its valid elements, in the order of the cache. */
  ghost predicate WrittenToOwn(cache: seq<Element>, writes: seq<Write>) {
    && (forall k :: 0 <= k < |writes| ==> writes[k].table == writes[k].element.table && writes[k].element.valid)
    && forall name :: OneTable(cache, writes, name)
  }

  ghost predicate OneTable(cache: seq<Element>, writes: seq<Write>, name: string) {
    exists out ::
      Selects(writes, WrittenInto(name), out) && Selects(cache, ValidFor(name), ElementsOf(out))
  }

  lemma ElementsMore(w: seq<Write>, x: Write)
    ensures ElementsOf([]) == [] && ElementsOf(w + [x]) == ElementsOf(w) + [x.element]
  {
  }

  lemma {:induction false} TakenAllExactly(q: seq<Element>, name: string)
    ensures WrittenToOne(q, TakenAll(q, name), name)
  {
    hide Selects, ElementsOf;
    ElementsMore([], Write(name, Element(name, true, 0)));
    if q == [] {
      SelectNone(IsValid);
    } else {
      var before, e := q[..|q| - 1], q[|q| - 1];
      TakenAllExactly(before, name);
      var w := TakenAll(before, name);
      SelectMore(before, IsValid, ElementsOf(w), e);
      assert before + [e] == q;
      ElementsMore(w, Write(name, e));
    }
  }

  lemma {:induction false} OfTableExactly(q: seq<Element>, name: string)
    ensures Selects(q, ValidFor(name), OfTable(q, name))
  {
    hide Selects;
    if q == [] {
      SelectNone(ValidFor(name));
    } else {
      var before, e := q[..|q| - 1], q[|q| - 1];
      OfTableExactly(before, name);
      SelectMore(before, ValidFor(name), OfTable(before, name), e);
      assert before + [e] == q;
    }
  }

  lemma {:induction false} WrittenToExactly(w: seq<Write>, name: string) returns (out: seq<Write>)
    ensures Selects(w, WrittenInto(name), out) && ElementsOf(out) == WrittenTo(w, name)
  {
    hide Selects, ElementsOf;
    ElementsMore([], Write(name, Element(name, true, 0)));
    if w == [] {
      out := [];
      SelectNone(WrittenInto(name));
    } else {
      var before, x := w[..|w| - 1], w[|w| - 1];
      out := WrittenToExactly(before, name);
      SelectMore(before, WrittenInto(name), out, x);
      assert before + [x] == w;
      if x.table == name {
        ElementsMore(out, x);
        out := out + [x];
      }
    }
  }

  lemma RoundsExactly(q: seq<Element>)
    ensures WrittenToOwn(q, Rounds(q)) && RoundCount(q) == |set e | e in q :: e.table|
  {
    hide Rounds, OfTable, WrittenTo, Selects;
    OwnTable(q);
    RoundPerName(q);
    forall name ensures OneTable(q, Rounds(q), name) {
      EveryTableComplete(q, name);
      OfTableExactly(q, name);
      var out := WrittenToExactly(Rounds(q), name);
    }
    assert forall k :: 0 <= k < |Rounds(q)| ==> Rounds(q)[k] in Rounds(q);
  }

  /** The purge. Queries are taken to succeed; a write is an append. */
  method Purge(cache: seq<Element>, mode: Mode) returns (writes: seq<Write>, rounds: nat)
    ensures cache == [] ==> writes == [] && rounds == 0
    ensures cache != [] ==>
            match mode
            case Fixed(name) => WrittenToOne(cache, writes, name) && rounds == 1
            case PerPurge => WrittenToOne(cache, writes, cache[0].table) && rounds == 1
            case PerElement => WrittenToOwn(cache, writes) && rounds == |set e | e in cache :: e.table|
  {
    hide Taken, TakenAll, Left, Rounds, RoundCount, WrittenToOne, WrittenToOwn, Names;
    writes, rounds := [], 0;
    if cache == [] {
      return;
    }
    NoRounds();
    var queue, pending := [], cache;
    while true
      invariant pending != []
      invariant mode.PerElement? ==>
                  writes + Rounds(pending) == Rounds(cache) && rounds + RoundCount(pending) == RoundCount(cache)
      invariant !mode.PerElement? ==> writes == [] && rounds == 0 && pending == cache
      decreases |pending|
    {
      queue, pending := pending, [];
      var name := if mode.Fixed? then mode.table else queue[0].table;
      RoundsStep(queue, writes);
      var written;
      written, pending := Round(queue, name, mode.PerElement?);
      writes := writes + written;
      rounds := rounds + 1;
      if pending == [] {
        NoRounds();
        if mode.PerElement? {
          RoundsExactly(cache);
          assert writes + [] == writes;
        } else {
          TakenAllExactly(cache, name);
          assert [] + written == written;
        }
        return;
      }
    }
  }

  // ----- what the rounds achieve

  /** The valid elements of one table, in queue order. */
  ghost function OfTable(q: seq<Element>, name: string): seq<Element> {
    if q == [] then []
    else
      var before, e := OfTable(q[..|q| - 1], name), q[|q| - 1];
      if e.table == name && e.valid then before + [e] else before
  }

  /** The elements written to one table, in order of writing. */
  ghost function WrittenTo(w: seq<Write>, name: string): seq<Element> {
    if w == [] then []
    else
      var before, x := WrittenTo(w[..|w| - 1], name), w[|w| - 1];
      if x.table == name then before + [x.element] else before
  }

  lemma {:induction false} WrittenAppend(v: seq<Write>, w: seq<Write>, name: string)
    ensures WrittenTo(v + w, name) == WrittenTo(v, name) + WrittenTo(w, name)
  {
    if w == [] {
      assert v + w == v;
    } else {
      assert (v + w)[..|v + w| - 1] == v + w[..|w| - 1];
      WrittenAppend(v, w[..|w| - 1], name);
    }
  }

  lemma {:induction false} TakenWritten(q: seq<Element>, name: string, other: string)
    ensures WrittenTo(Taken(q, name), other) == if name == other then OfTable(q, other) else []
  {
    if q != [] {
      TakenWritten(q[..|q| - 1], name, other);
    }
  }

  lemma {:induction false} LeftOfTable(q: seq<Element>, name: string, other: string)
    ensures OfTable(Left(q, name), other) == if name == other then [] else OfTable(q, other)
  {
    if q != [] {
      LeftOfTable(q[..|q| - 1], name, other);
    }
  }

  /** Every valid element is written exactly once, to its own table, and each
      table gets its elements in queue order. */
  lemma {:induction false} EveryTableComplete(q: seq<Element>, name: string)
    ensures WrittenTo(Rounds(q), name) == OfTable(q, name)
    decreases |q|
  {
    if q != [] {
      var first := q[0].table;
      RoundShrinks(q);
      EveryTableComplete(Left(q, first), name);
      WrittenAppend(Taken(q, first), Rounds(Left(q, first)), name);
      TakenWritten(q, first, name);
      LeftOfTable(q, first, name);
    }
  }

  lemma {:induction false} TakenOwn(q: seq<Element>, name: string)
    ensures forall w :: w in Taken(q, name) ==> w.table == name == w.element.table && w.element.valid
  {
    if q != [] {
      TakenOwn(q[..|q| - 1], name);
    }
  }

  lemma {:induction false} OwnTable(q: seq<Element>)
    ensures forall w :: w in Rounds(q) ==> w.table == w.element.table && w.element.valid
    decreases |q|
  {
    if q != [] {
      RoundShrinks(q);
      TakenOwn(q, q[0].table);
      OwnTable(Left(q, q[0].table));
    }
  }

  // ----- one round per table name

  ghost function Names(q: seq<Element>): set<string> {
    set e | e in q :: e.table
  }

  lemma {:induction false} LeftMembers(q: seq<Element>, name: string)
    ensures forall e :: e in Left(q, name) <==> e in q && e.table != name
  {
    if q != [] {
      LeftMembers(q[..|q| - 1], name);
      assert q == q[..|q| - 1] + [q[|q| - 1]];
    }
  }

  lemma {:induction false} RoundPerName(q: seq<Element>)
    ensures RoundCount(q) == |Names(q)|
    decreases |q|
  {
    if q != [] {
      var first := q[0].table;
      RoundShrinks(q);
      RoundPerName(Left(q, first));
      LeftMembers(q, first);
      assert Names(Left(q, first)) == Names(q) - {first};
      assert q[0] in q;
    }
  }
}
