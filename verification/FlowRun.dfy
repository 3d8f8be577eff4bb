/**
 Whole runs of the flow table: every packet handled is one record of a run,
 so over any run that needs no more nodes than there are, the answers about
 non-TCP packets are those of the table that forgets nothing. For TCP the
 table itself runs a counterexample.
 */
module FlowRun {
  import opened FlowRules
  import opened FlowSimulation
  import opened FlowPhases
  import opened FlowTable

  /** The run so far ends in the view `v`. */
  ghost predicate RunsTo(cfg: Config, events: seq<Event>, records: seq<Record>, capacity: nat, v: View) {
    && Run(cfg, events, records)
    && (forall i :: 0 <= i < |records| ==> (records[i].room <==> |records[i].pruned| < capacity))
    && v == if records == [] then map[] else records[|records| - 1].after
  }

  lemma RunsOn(cfg: Config, events: seq<Event>, records: seq<Record>, capacity: nat, v: View, e: Event, r: Record)
    requires RunsTo(cfg, events, records, capacity, v) && r.before == v
    requires RecordOf(cfg, e, r) && (r.room <==> |r.pruned| < capacity)
    ensures RunsTo(cfg, events + [e], records + [r], capacity, r.after)
  {
    hide RecordOf;
    var events', records' := events + [e], records + [r];
    forall i | 0 <= i < |events'| ensures RecordOf(cfg, events'[i], records'[i]) {
      if i < |events| {
        assert events'[i] == events[i] && records'[i] == records[i];
      }
    }
  }

  /** The answers to a sequence of packets by a new table. */
  method HandleAll(cfg: Config, hash: FlowKey -> nat, hashSize: nat, nodes: nat, start: nat, events: seq<Event>)
    returns (answers: seq<bool>)
    requires 0 < hashSize <= 65536
    ensures |answers| == |events|
    ensures ClockMonotone(events) && (forall i :: 0 <= i < |events| ==> events[i].now > cfg.generic) &&
            |KeysOf(events)| <= nodes ==>
              forall n :: 0 <= n < |events| && events[n].pkt.proto != IPPROTO_TCP ==>
                answers[n] == IdealAnswer(cfg, IdealView(cfg, events, n), events[n])
    ensures ClockMonotone(events) && |KeysOf(events)| <= nodes ==> RightAnswers(cfg, events, answers)
  {
    hide RightAnswers, Run, RecordOf, RunsTo, GoodShape, ShapeView, ReuseRule, Live, IdealAnswer, IdealView,
         ClockMonotone, KeysOf;
    var table := new Table(cfg, hash, hashSize, nodes, start);
    answers := [];
    ghost var records: seq<Record> := [];
    NoRecords(cfg, nodes);
    for i := 0 to |events|
      invariant table.Valid() && table.cfg == cfg && table.capacity == nodes && fresh(table)
      invariant |answers| == i == |records|
      invariant forall n :: 0 <= n < i ==> answers[n] == records[n].newFlow
      invariant RunsTo(cfg, events[..i], records, nodes, table.View())
    {
      var answer;
      ghost var r;
      answer, r := table.Handle(events[i].now, events[i].pkt);
      RunsOn(cfg, events[..i], records, nodes, r.before, events[i], r);
      assert events[..i + 1] == events[..i] + [events[i]];
      answers := answers + [answer];
      records := records + [r];
    }
    assert events[..|events|] == events;
    AnswersIdeal(cfg, events, records, nodes, table.View());
    AnswersRight(cfg, events, records, nodes, table.View());
    assert answers == AnswersOf(records);
  }

  /** The answers told by the packets alone. */
  ghost predicate RightAnswers(cfg: Config, events: seq<Event>, answers: seq<bool>) {
    && PhaseAnswers(events, answers) && HandshakeAnswers(cfg, events, answers) && CloseAnswers(cfg, events, answers)
    && FreshAnswers(cfg, events, answers) && ProlongAnswers(events, answers)
    && ((forall i :: 0 <= i < |events| ==> events[i].now > cfg.generic) ==> GenericAnswers(cfg, events, answers))
  }

  lemma AnswersRight(cfg: Config, events: seq<Event>, records: seq<Record>, capacity: nat, v: View)
    requires RunsTo(cfg, events, records, capacity, v)
    ensures ClockMonotone(events) && |KeysOf(events)| <= capacity ==> RightAnswers(cfg, events, AnswersOf(records))
  {
    hide PhaseAnswers, HandshakeAnswers, CloseAnswers, FreshAnswers, ProlongAnswers, GenericAnswers;
    if ClockMonotone(events) && |KeysOf(events)| <= capacity {
      EnoughNodes(cfg, events, records, capacity);
      AnswersExactly(cfg, events, records);
    }
  }

  lemma NoRecords(cfg: Config, capacity: nat)
    ensures RunsTo(cfg, [], [], capacity, map[])
  {
  }

  lemma AnswersIdeal(cfg: Config, events: seq<Event>, records: seq<Record>, capacity: nat, v: View)
    requires RunsTo(cfg, events, records, capacity, v)
    ensures |records| == |events|
    ensures ClockMonotone(events) && (forall i :: 0 <= i < |events| ==> events[i].now > cfg.generic) &&
            |KeysOf(events)| <= capacity ==>
              forall n :: 0 <= n < |events| && events[n].pkt.proto != IPPROTO_TCP ==>
                records[n].newFlow == IdealAnswer(cfg, IdealView(cfg, events, n), events[n])
  {
    if ClockMonotone(events) && (forall i :: 0 <= i < |events| ==> events[i].now > cfg.generic) &&
       |KeysOf(events)| <= capacity
    {
      EnoughNodes(cfg, events, records, capacity);
      forall n | 0 <= n < |events| && events[n].pkt.proto != IPPROTO_TCP
        ensures records[n].newFlow == IdealAnswer(cfg, IdealView(cfg, events, n), events[n])
      {
        ForgettingUnobservable(cfg, events, records, n);
      }
    }
  }

  // ----- TCP

  /** What a record determines when nothing is left to chance. */
  lemma OneOutcome(cfg: Config, e: Event, r: Record, q: Record)
    requires RecordOf(cfg, e, r) && RecordOf(cfg, e, q) && r.pruned == q.pruned && q.room
    requires KeyOf(e.pkt) in r.pruned || (r.pruned == map[] && r.room)
    ensures r.after == q.after && r.newFlow == q.newFlow
  {
    hide Touched, Created, ExpiredUni;
    if r.pruned == map[] {
      assert r.kept == map[] && q.kept == map[];
    }
  }

  /** Handling an event of the counterexample gives its record. */
  lemma RecordIs(cfg: Config, i: nat, r: Record)
    requires i < 4 && RecordOf(cfg, ResetThenClosed(cfg)[i], r)
    requires r.pruned == ResetRecords(cfg)[i].pruned && (r.room || KEY in r.pruned)
    ensures r.after == ResetRecords(cfg)[i].after && r.newFlow == ResetRecords(cfg)[i].newFlow
  {
    hide RecordOf, Touched;
    ResetStart(cfg);
    ResetEnd(cfg);
    OneOutcome(cfg, ResetThenClosed(cfg)[i], r, ResetRecords(cfg)[i]);
  }

  /** The prune deadline of a table started in time for the counterexample. */
  function DeadlineAt(cfg: Config, i: nat): nat {
    if i < 3 then Start(cfg) + 10 else Start(cfg) + 11 + FLOW_TABLE_PRUNE_INTERVAL
  }

  lemma ResetSteps(cfg: Config, i: nat)
    requires i < 4
    ensures var r, now := ResetRecords(cfg)[i], ResetThenClosed(cfg)[i].now;
            && r.pruned == (if now > DeadlineAt(cfg, i) then Live(cfg, now, r.before) else r.before)
            && (|r.pruned| < 1 || KEY in r.pruned)
            && DeadlineAt(cfg, i + 1) ==
               (if now > DeadlineAt(cfg, i) then now + FLOW_TABLE_PRUNE_INTERVAL else DeadlineAt(cfg, i))
            && (i == 0 ==> r.before == map[]) && (i > 0 ==> r.before == ResetRecords(cfg)[i - 1].after)
  {
    hide Touched;
    if i == 2 {
      var t := Start(cfg);
      assert Live(cfg, t + 11, Only(t, t, TH_RST)) == map[];
    }
  }

  ghost predicate Before(table: Table, cfg: Config, i: nat)
    requires i < 4
    reads table
  {
    && table.Valid() && table.cfg == cfg && table.capacity == 1
    && table.View() == ResetRecords(cfg)[i].before && table.pruneDeadline == DeadlineAt(cfg, i)
  }

  method HandleReset(table: Table, cfg: Config, i: nat) returns (answer: bool)
    requires i < 4 && Before(table, cfg, i)
    modifies table
    ensures answer == ResetRecords(cfg)[i].newFlow
    ensures i < 3 ==> Before(table, cfg, i + 1)
  {
    hide RecordOf, GoodShape, ShapeView, ReuseRule, Live, DeadlineAt, Touched, Only;
    ResetSteps(cfg, i);
    var e := ResetThenClosed(cfg)[i];
    ghost var r;
    answer, r := table.Handle(e.now, e.pkt);
    RecordIs(cfg, i, r);
    if i < 3 {
      ResetSteps(cfg, i + 1);
    }
  }

  /** The linked table itself shows it: its answer to the last packet of the
      counterexample is not that of the table that forgets nothing. */
  method ObservedByTcp(cfg: Config, hash: FlowKey -> nat, hashSize: nat) returns (answer: bool)
    requires 0 < hashSize <= 65536
    ensures answer != IdealAnswer(cfg, IdealView(cfg, ResetThenClosed(cfg), 3), ResetThenClosed(cfg)[3])
  {
    hide GoodShape, ShapeView, Touched, IdealAnswer, IdealView;
    var table := new Table(cfg, hash, hashSize, 1, Start(cfg) + 10 - FLOW_TABLE_PRUNE_INTERVAL);
    answer := HandleReset(table, cfg, 0);
    answer := HandleReset(table, cfg, 1);
    answer := HandleReset(table, cfg, 2);
    answer := HandleReset(table, cfg, 3);
    ResetIdeal(cfg);
  }
}
