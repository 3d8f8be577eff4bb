/**
 Purging the cache to Kafka with several JSON lines per message. Lines are
 packed into a buffer of bounded size; a full buffer is sent and the line
 that did not fit starts the next one. Whether a send succeeds is decided by
 an arbitrary function of its number.
 */
module KafkaPurge {
  import opened Selection


  /** A queued element: its JSON text and whether it is committed. */
  datatype Element = Element(line: string, committed: bool)

  datatype Result =
    | Purged(messages: seq<string>, qn: nat)
    | TooLong // the plugin exits

  // ----- lines and messages

  /** The lines of the committed elements. */
  function Lines(q: seq<Element>): seq<string> {
    if q == [] then []
    else
      var before, e := Lines(q[..|q| - 1]), q[|q| - 1];
      if e.committed then before + [e.line] else before
  }

  /** Lines with their newlines. */
  function Text(lines: seq<string>): string {
    if lines == [] then ""
    else Text(lines[..|lines| - 1]) + lines[|lines| - 1] + "\n"
  }

  function Concat(messages: seq<string>): string {
    if messages == [] then ""
    else Concat(messages[..|messages| - 1]) + messages[|messages| - 1]
  }

  function Flat(groups: seq<seq<string>>): seq<string> {
    if groups == [] then []
    else Flat(groups[..|groups| - 1]) + groups[|groups| - 1]
  }

  /** The lines in messages whose send succeeded. */
  function Delivered(groups: seq<seq<string>>, sent: nat -> bool): nat {
    if groups == [] then 0
    else
      var n := |groups| - 1;
      Delivered(groups[..n], sent) + if sent(n) then |groups[n]| else 0
  }

  /** Messages are the texts of groups of lines, none empty, and no message
      is longer than `bound`. */
  ghost predicate Packed(messages: seq<string>, groups: seq<seq<string>>, bound: nat) {
    && |messages| == |groups|
    && forall k :: 0 <= k < |messages| ==>
         groups[k] != [] && messages[k] == Text(groups[k]) && |messages[k]| <= bound
  }

  /** The size the loop takes a line to have; an empty one counts nothing,
      although its newline is written. */
  function LineSize(line: string): nat {
    if line == "" then 0 else |line| + 1
  }

  predicate NoEmptyLine(q: seq<Element>) {
    forall j :: 0 <= j < |q| && q[j].committed ==> q[j].line != ""
  }

  /** A message with its terminator fits the buffer, unless a line is empty:
      then it may be one character too long. */
  function MessageBound(q: seq<Element>, limit: nat): nat
    requires limit > 0
  {
    if NoEmptyLine(q) then limit - 1 else limit
  }

  lemma {:induction false} TextAppend(a: seq<string>, b: seq<string>)
    ensures Text(a + b) == Text(a) + Text(b)
  {
    if b == [] {
      assert a + b == a;
    } else {
      assert (a + b)[..|a + b| - 1] == a + b[..|b| - 1];
      TextAppend(a, b[..|b| - 1]);
    }
  }

  /** The messages together are the text of all their lines. */
  lemma {:induction false} PackedText(messages: seq<string>, groups: seq<seq<string>>, bound: nat)
    requires Packed(messages, groups, bound)
    ensures Concat(messages) == Text(Flat(groups))
  {
    if messages != [] {
      var n := |messages| - 1;
      PackedText(messages[..n], groups[..n], bound);
      TextAppend(Flat(groups[..n]), groups[n]);
    }
  }

  lemma {:induction false} AllDelivered(groups: seq<seq<string>>, sent: nat -> bool)
    requires forall k :: 0 <= k < |groups| ==> sent(k)
    ensures Delivered(groups, sent) == |Flat(groups)|
  {
    if groups != [] {
      AllDelivered(groups[..|groups| - 1], sent);
    }
  }

  // ----- the purge loop

  /** The state of the loop in terms of groups: what has been sent, and the
      lines in the buffer. */
  ghost predicate Batching(done: seq<Element>, messages: seq<string>, groups: seq<seq<string>>, buf: string,
                           open: seq<string>, bound: nat)
  {
    && Packed(messages, groups, bound)
    && buf == Text(open) && |buf| <= bound
    && Flat(groups) + open == Lines(done)
  }

  lemma BatchLine(done: seq<Element>, e: Element, messages: seq<string>, groups: seq<seq<string>>, buf: string,
                  open: seq<string>, bound: nat)
    requires Batching(done, messages, groups, buf, open, bound) && e.committed
    requires |buf| + |e.line| + 1 <= bound
    ensures Batching(done + [e], messages, groups, buf + e.line + "\n", open + [e.line], bound)
  {
    assert (done + [e])[..|done|] == done;
    assert (open + [e.line])[..|open|] == open;
    assert Flat(groups) + (open + [e.line]) == Flat(groups) + open + [e.line];
  }

  lemma BatchFlush(done: seq<Element>, e: Element, messages: seq<string>, groups: seq<seq<string>>, buf: string,
                   open: seq<string>, bound: nat)
    requires Batching(done, messages, groups, buf, open, bound) && e.committed
    requires open != [] && |e.line| + 1 <= bound
    ensures Batching(done + [e], messages + [buf], groups + [open], e.line + "\n", [e.line], bound)
  {
    assert (done + [e])[..|done|] == done;
    assert (groups + [open])[..|groups|] == groups;
    assert Text([e.line]) == Text([]) + e.line + "\n";
  }

  lemma BatchSkip(done: seq<Element>, e: Element, messages: seq<string>, groups: seq<seq<string>>, buf: string,
                  open: seq<string>, bound: nat)
    requires Batching(done, messages, groups, buf, open, bound) && !e.committed
    ensures Batching(done + [e], messages, groups, buf, open, bound)
  {
    assert (done + [e])[..|done|] == done;
  }

  ghost predicate Unfit(message: string, next: seq<string>, limit: nat) {
    next != [] && |message| + (if next[0] == "" then 0 else |next[0]| + 1) >= limit
  }

  /** A message ends only where the first line of the next did not fit. */
  ghost predicate Greedy(messages: seq<string>, groups: seq<seq<string>>, open: seq<string>, limit: nat) {
    && |messages| == |groups| && (open == [] ==> messages == [])
    && forall k :: 0 <= k < |messages| ==> Unfit(messages[k], if k + 1 < |groups| then groups[k + 1] else open, limit)
  }

  lemma GreedyFlush(messages: seq<string>, groups: seq<seq<string>>, open: seq<string>, buf: string, line: string,
                    limit: nat)
    requires Greedy(messages, groups, open, limit) && |buf| + LineSize(line) >= limit
    ensures open != [] ==> Greedy(messages + [buf], groups + [open], [line], limit)
  {
  }

  lemma GreedyLine(messages: seq<string>, groups: seq<seq<string>>, open: seq<string>, line: string, limit: nat)
    requires Greedy(messages, groups, open, limit)
    ensures Greedy(messages, groups, open + [line], limit)
  {
  }

  lemma GreedyStart(limit: nat)
    ensures Greedy([], [], [], limit)
  {
  }

  /** Every message but the last is full: the next line would not fit. */
  ghost predicate Full(messages: seq<string>, groups: seq<seq<string>>, limit: nat) {
    && |messages| == |groups|
    && forall k :: 0 <= k < |messages| - 1 ==> Unfit(messages[k], groups[k + 1], limit)
  }

  lemma GreedyIsFull(messages: seq<string>, groups: seq<seq<string>>, open: seq<string>, buf: string, limit: nat)
    requires Greedy(messages, groups, open, limit)
    ensures open != [] ==> Full(messages + [buf], groups + [open], limit)
    ensures open == [] ==> Full(messages, groups, limit)
  {
    if open != [] {
      var m, g := messages + [buf], groups + [open];
      forall k | 0 <= k < |m| - 1 ensures Unfit(m[k], g[k + 1], limit) {
        assert m[k] == messages[k] && (k + 1 < |groups| ==> g[k + 1] == groups[k + 1]);
      }
    }
  }

  lemma DeliveredMore(groups: seq<seq<string>>, open: seq<string>, sent: nat -> bool)
    ensures Delivered(groups + [open], sent) == Delivered(groups, sent) + if sent(|groups|) then |open| else 0
  {
    assert (groups + [open])[..|groups|] == groups;
  }

  /** Packs the lines of the committed elements into messages. `groups` says
      which lines went into which message, `stop` how much of the queue was
      taken before a send failed. */
  method Purge(queue: seq<Element>, limit: nat, sent: nat -> bool)
    returns (r: Result, ghost groups: seq<seq<string>>, ghost stop: nat)
    requires limit > 0
    ensures r.Purged? ==>
              && stop <= |queue|
              && Packed(r.messages, groups, MessageBound(queue, limit)) && Full(r.messages, groups, limit)
              && Flat(groups) == Lines(queue[..stop])
              && r.qn == Delivered(groups, sent)
              && LinesOf(queue[..stop], Flat(groups))
              && (stop < |queue| ==> exists k :: 0 <= k < |groups| && !sent(k))
              && StopsAtFailure(groups, sent, stop == |queue|)
    ensures r.TooLong? ==>
              exists j :: 0 <= j < |queue| && queue[j].committed && queue[j].line != "" && |queue[j].line| + 1 >= limit
  {
    hide Greedy, Full, Batching, Packed, Text, Flat, Lines, Delivered, LinesOf;
    ghost var bound := MessageBound(queue, limit);
    var messages, buf, mvNum, qn := [], "", 0, 0;
    ghost var open: seq<string> := [];
    groups, stop := [], |queue|;
    var j, failed := 0, false;
    GreedyStart(limit);
    BatchStart(queue, bound, sent);
    while j < |queue| && !failed
      invariant 0 <= j <= |queue| && mvNum == |open|
      invariant Batching(queue[..j], messages, groups, buf, open, bound) && |buf| <= limit
      invariant Greedy(messages, groups, open, limit)
      invariant qn == Delivered(groups, sent)
      invariant !failed ==> forall k :: 0 <= k < |groups| ==> sent(k)
      invariant failed ==> |groups| > 0 && !sent(|groups| - 1) && |open| == 1
      invariant failed ==> forall k :: 0 <= k < |groups| - 1 ==> sent(k)
    {
      var e := queue[j];
      ghost var done := queue[..j];
      assert queue[..j + 1] == done + [e];
      BatchSizes(done, messages, groups, buf, open, bound);
      if !e.committed {
        BatchSkip(done, e, messages, groups, buf, open, bound);
      } else if LineSize(e.line) >= limit - |buf| {
        if LineSize(e.line) >= limit {
          return TooLong, groups, stop;
        }
        GreedyFlush(messages, groups, open, buf, e.line, limit);
        BatchFlush(done, e, messages, groups, buf, open, bound);
        DeliveredMore(groups, open, sent);
        var ok := sent(|messages|);
        messages := messages + [buf];
        groups := groups + [open];
        buf := e.line + "\n";
        open := [e.line];
        if ok {
          qn := qn + mvNum;
        } else {
          failed := true;
        }
        mvNum := 1;
      } else {
        GreedyLine(messages, groups, open, e.line, limit);
        BatchLine(done, e, messages, groups, buf, open, bound);
        buf := buf + e.line + "\n";
        open := open + [e.line];
        mvNum := mvNum + 1;
      }
      j := j + 1;
    }
    stop := j;
    GreedyIsFull(messages, groups, open, buf, limit);
    BatchSizes(queue[..j], messages, groups, buf, open, bound);
    BatchEnd(queue[..j], messages, groups, buf, open, bound);
    LinesExactly(queue[..j]);
    if |buf| > 0 {
      DeliveredMore(groups, open, sent);
      if sent(|messages|) {
        qn := qn + mvNum;
      }
      messages := messages + [buf];
      groups := groups + [open];
    }
    r := Purged(messages, qn);
  }

  /** `lines` are the lines of the committed elements of `q`, in order. */
  ghost predicate LinesOf(q: seq<Element>, lines: seq<string>) {
    exists chosen: seq<Element> ::
      && Selects(q, IsCommitted, chosen)
      && |chosen| == |lines| && forall k :: 0 <= k < |lines| ==> lines[k] == chosen[k].line
  }

  predicate IsCommitted(e: Element) {
    e.committed
  }

  lemma {:induction false} LinesExactly(q: seq<Element>)
    ensures LinesOf(q, Lines(q))
  {
    hide Selects;
    if q == [] {
      SelectNone(IsCommitted);
    } else {
      var before, e := q[..|q| - 1], q[|q| - 1];
      LinesExactly(before);
      var chosen: seq<Element> :| Selects(before, IsCommitted, chosen) && |chosen| == |Lines(before)| &&
                    forall k :: 0 <= k < |chosen| ==> Lines(before)[k] == chosen[k].line;
      SelectMore(before, IsCommitted, chosen, e);
      assert before + [e] == q;
    }
  }

  /** A failed send ends the purge: only the line that did not fit any more is
      still sent, in a message of its own; unless it is the last message that
      fails, nothing of the queue being left. */
  ghost predicate StopsAtFailure(groups: seq<seq<string>>, sent: nat -> bool, finished: bool) {
    && (forall k :: 0 <= k < |groups| - 2 ==> sent(k))
    && (|groups| >= 2 && !sent(|groups| - 2) ==> |groups[|groups| - 1]| == 1)
    && (!finished ==> |groups| >= 2 && !sent(|groups| - 2))
  }

  lemma BatchStart(queue: seq<Element>, bound: nat, sent: nat -> bool)
    ensures Batching(queue[..0], [], [], "", [], bound) && Delivered([], sent) == 0
  {
  }

  lemma BatchSizes(done: seq<Element>, messages: seq<string>, groups: seq<seq<string>>, buf: string, open: seq<string>,
                   bound: nat)
    requires Batching(done, messages, groups, buf, open, bound)
    ensures |messages| == |groups| && |buf| <= bound && (open == [] <==> |buf| == 0)
  {
    BufferNotEmpty(buf, open);
  }

  /** The buffer that is left is the last message. */
  lemma BatchEnd(done: seq<Element>, messages: seq<string>, groups: seq<seq<string>>, buf: string, open: seq<string>,
                 bound: nat)
    requires Batching(done, messages, groups, buf, open, bound)
    ensures open == [] ==> Packed(messages, groups, bound) && Flat(groups) == Lines(done)
    ensures open != [] ==> Packed(messages + [buf], groups + [open], bound) && Flat(groups + [open]) == Lines(done)
  {
    hide Text, Lines;
    assert (groups + [open])[..|groups|] == groups;
  }

  lemma BufferNotEmpty(buf: string, open: seq<string>)
    requires buf == Text(open)
    ensures open == [] <==> |buf| == 0
  {
  }

  /** When every line fits and every send succeeds, the messages together are
      the lines of the committed elements in queue order, and the count is
      the number of these elements. */
  lemma AllSent(queue: seq<Element>, messages: seq<string>, groups: seq<seq<string>>, bound: nat,
                sent: nat -> bool, stop: nat, qn: nat)
    requires Packed(messages, groups, bound) && stop <= |queue|
    requires Flat(groups) == Lines(queue[..stop]) && qn == Delivered(groups, sent)
    requires stop < |queue| ==> exists k :: 0 <= k < |groups| && !sent(k)
    requires forall k: nat :: sent(k)
    ensures Concat(messages) == Text(Lines(queue)) && qn == |Lines(queue)|
  {
    PackedText(messages, groups, bound);
    AllDelivered(groups, sent);
    assert queue[..stop] == queue;
  }

  lemma {:induction false} FlatAtLeast(groups: seq<seq<string>>)
    requires forall k :: 0 <= k < |groups| ==> groups[k] != []
    ensures |Flat(groups)| >= |groups|
  {
    if groups != [] {
      FlatAtLeast(groups[..|groups| - 1]);
    }
  }

  /** Two lines are in one message or in two. */
  lemma GroupsOfTwo(groups: seq<seq<string>>, lines: seq<string>)
    requires forall k :: 0 <= k < |groups| ==> groups[k] != []
    requires Flat(groups) == lines && |lines| == 2
    ensures |groups| == 1 || |groups| == 2
    ensures |groups| == 1 ==> groups[0] == lines
    ensures |groups| == 2 ==> groups[0] == lines[..1] && groups[1] == lines[1..]
  {
    hide Flat;
    FlatAtLeast(groups);
    FlatStep(groups, |groups| - 1);
    if |groups| == 2 {
      FlatStep(groups, 0);
      JoinOfTwo(groups[0], groups[1], lines);
    }
  }

  lemma FlatStep(groups: seq<seq<string>>, n: int)
    requires n < |groups|
    ensures groups == [] ==> Flat(groups) == []
    ensures n >= 0 ==> Flat(groups[..n + 1]) == Flat(groups[..n]) + groups[n]
    ensures n == 0 ==> Flat(groups[..1]) == groups[0]
    ensures n == |groups| - 1 ==> groups[..n + 1] == groups
  {
    if n >= 0 {
      assert groups[..n + 1][..n] == groups[..n] && groups[..n + 1][n] == groups[n];
    }
  }

  lemma JoinOfTwo(a: seq<string>, b: seq<string>, lines: seq<string>)
    requires a + b == lines && |lines| == 2 && a != [] && b != []
    ensures a == lines[..1] && b == lines[1..]
  {
    assert |a| + |b| == |lines|;
  }

  /** After a line of one character an empty line is taken to fit. */
  lemma EmptyFits(messages: seq<string>, groups: seq<seq<string>>, bound: nat, line: string)
    requires Packed(messages, groups, bound) && |groups| == 2 && |line| == 1
    requires groups[0] == [line] && groups[1] == [""]
    ensures !Unfit(messages[0], groups[1], 3)
  {
    assert Text([line]) == Text([]) + line + "\n";
  }

  lemma SecondUnfit(messages: seq<string>, groups: seq<seq<string>>, limit: nat)
    requires Full(messages, groups, limit) && |groups| == 2
    ensures |messages| == 2 && Unfit(messages[0], groups[1], limit)
  {
  }

  lemma OneMessage(messages: seq<string>, groups: seq<seq<string>>, bound: nat, line: string)
    requires Packed(messages, groups, bound) && Full(messages, groups, 3)
    requires |line| == 1 && Flat(groups) == [line, ""]
    ensures |messages| == 1 && |messages[0]| == 3
  {
    hide Full, Unfit, Flat;
    var lines := [line, ""];
    GroupsOfTwo(groups, lines);
    assert lines[..1] == [line] && lines[1..] == [""];
    assert Text(lines) == Text([line]) + "" + "\n" && Text([line]) == Text([]) + line + "\n";
    if |groups| == 2 {
      EmptyFits(messages, groups, bound, line);
      SecondUnfit(messages, groups, 3);
    }
  }

  lemma TwoCommitted(a: Element, b: Element)
    requires a.committed && b.committed
    ensures Lines([a, b]) == [a.line, b.line]
  {
    assert [a, b][..1] == [a] && [a][..0] == [];
    assert Lines([a]) == [a.line];
  }

  /** With an empty line a message and its terminator can exceed the buffer. */
  method EmptyLineOverflows(a: string) returns (message: string)
    requires |a| == 1
    ensures |message| + 1 > 3
  {
    hide Packed, Full, Lines, Flat, Delivered;
    var queue := [Element(a, true), Element("", true)];
    ghost var groups, stop;
    var r;
    r, groups, stop := Purge(queue, 3, _ => true);
    assert queue[..stop] == queue;
    TwoCommitted(queue[0], queue[1]);
    OneMessage(r.messages, groups, MessageBound(queue, 3), a);
    message := r.messages[0];
  }
}
