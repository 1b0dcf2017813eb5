/** Sending log lines in batches (buildlogger.py, LogAppender and the final flush
    of wrap_test and wrap_global). Whether a send succeeds and what the clock says
    is up to the environment. */
module LogAppender {
  import opened Collections

  datatype Entry = Entry(time: real, line: string)

  // A batch that was sent: the buffer, followed by the lines of earlier failures.
  datatype Batch = Batch(buffered: seq<Entry>, retried: seq<Entry>)

  datatype World = World(
    buf: seq<Entry>,
    retrybuf: seq<Entry>,
    lastSent: real,
    accepted: seq<Entry>,    // every line ever taken in, in order
    batches: seq<Batch>,     // the successful sends
    failures: nat)           // how many sends failed
  {
    function Pending(): seq<Entry> { retrybuf + buf }
  }

  datatype Limits = Limits(sendAfterLines: int, sendAfterSeconds: real)

  // The limits both wrappers use.
  const DEFAULT_LIMITS := Limits(200, 2.0)

  function Start(now: real): World {
    World([], [], now, [], [], 0)
  }

  function Submit(w: World, now: real, ok: bool): (World, bool) {
    if |w.buf| + |w.retrybuf| == 0 then (w, true)
    else if ok then
      (w.(buf := [], retrybuf := [], lastSent := now, batches := w.batches + [Batch(w.buf, w.retrybuf)]), true)
    else
      (w.(buf := [], retrybuf := w.retrybuf + w.buf, lastSent := now, failures := w.failures + 1), false)
  }

  // A line arrives: the clock is read when it is stored, when the delay is
  // computed, and when a batch is sent.
  function Append(limits: Limits, w: World, line: string, stored: real, checked: real, sent: real, ok: bool): World {
    var e := Entry(stored, line);
    var w1 := w.(buf := w.buf + [e], accepted := w.accepted + [e]);
    if |w1.buf| >= limits.sendAfterLines || checked - w1.lastSent >= limits.sendAfterSeconds
    then Submit(w1, sent, ok).0
    else w1
  }

  datatype Event =
    | Arrives(line: string, stored: real, checked: real, sent: real, ok: bool)
    | Flushes(now: real, ok: bool)

  function Next(limits: Limits, w: World, event: Event): World {
    match event
    case Arrives(line, stored, checked, sent, ok) => Append(limits, w, line, stored, checked, sent, ok)
    case Flushes(now, ok) => Submit(w, now, ok).0
  }

  function Run(limits: Limits, start: real, events: seq<Event>): World {
    if events == [] then Start(start)
    else Next(limits, Run(limits, start, events[..|events| - 1]), events[|events| - 1])
  }

  // ---- Conservation and order ----

  // The lines of the batches as they were sent, and as they had arrived.
  function Sent(batches: seq<Batch>): seq<Entry> {
    if batches == [] then []
    else var b := batches[|batches| - 1]; Sent(batches[..|batches| - 1]) + (b.buffered + b.retried)
  }

  function Arrived(batches: seq<Batch>): seq<Entry> {
    if batches == [] then []
    else var b := batches[|batches| - 1]; Arrived(batches[..|batches| - 1]) + (b.retried + b.buffered)
  }

  // Every line is in one batch or pending, in the order of arrival: older
  // batches first, then the failed lines, then the buffer.
  ghost predicate Conserved(w: World) {
    && w.accepted == Arrived(w.batches) + w.retrybuf + w.buf
    && (w.failures == 0 ==> w.retrybuf == [] && forall i :: 0 <= i < |w.batches| ==> w.batches[i].retried == [])
  }

  predicate BelowLimit(limits: Limits, w: World) {
    w.buf == [] || |w.buf| < limits.sendAfterLines
  }

  lemma SubmitConserves(w: World, now: real, ok: bool)
    requires Conserved(w)
    ensures Conserved(Submit(w, now, ok).0) && Submit(w, now, ok).0.buf == []
    ensures Submit(w, now, ok).1 <==> Submit(w, now, ok).0.Pending() == []
  {
    var w' := Submit(w, now, ok).0;
    if |w.buf| + |w.retrybuf| > 0 && ok {
      assert w'.batches[..|w.batches|] == w.batches;
      assert w'.accepted == Arrived(w.batches) + (w.retrybuf + w.buf);
    } else {
      assert w.retrybuf + w.buf + [] == w.retrybuf + w.buf;
    }
  }

  lemma NextConserves(limits: Limits, w: World, event: Event)
    requires Conserved(w) && BelowLimit(limits, w)
    ensures Conserved(Next(limits, w, event)) && BelowLimit(limits, Next(limits, w, event))
  {
    match event
    case Arrives(line, stored, checked, sent, ok) =>
      var e := Entry(stored, line);
      var w1 := w.(buf := w.buf + [e], accepted := w.accepted + [e]);
      assert w1.accepted == Arrived(w1.batches) + w1.retrybuf + w1.buf;
      SubmitConserves(w1, sent, ok);
    case Flushes(now, ok) => SubmitConserves(w, now, ok);
  }

  // Over every run, whatever the sends answer.
  lemma {:induction false} RunConserves(limits: Limits, start: real, events: seq<Event>)
    ensures Conserved(Run(limits, start, events)) && BelowLimit(limits, Run(limits, start, events))
  {
    if events != [] {
      RunConserves(limits, start, events[..|events| - 1]);
      NextConserves(limits, Run(limits, start, events[..|events| - 1]), events[|events| - 1]);
    }
  }

  lemma {:induction false} SameLines(batches: seq<Batch>)
    ensures multiset(Sent(batches)) == multiset(Arrived(batches)) && |Sent(batches)| == |Arrived(batches)|
  {
    if batches != [] {
      SameLines(batches[..|batches| - 1]);
    }
  }

  // No line is lost and none is sent twice.
  lemma NothingLostOrRepeated(limits: Limits, start: real, events: seq<Event>)
    ensures var w := Run(limits, start, events);
            multiset(w.accepted) == multiset(Sent(w.batches)) + multiset(w.retrybuf) + multiset(w.buf)
  {
    var w := Run(limits, start, events);
    RunConserves(limits, start, events);
    SameLines(w.batches);
  }

  // ---- When the order of arrival is kept ----

  predicate Straight(b: Batch) {
    b.buffered == [] || b.retried == []
  }

  predicate AllStraight(batches: seq<Batch>) {
    forall i :: 0 <= i < |batches| ==> Straight(batches[i])
  }

  lemma StraightSnoc(batches: seq<Batch>, b: Batch)
    ensures AllStraight(batches + [b]) <==> AllStraight(batches) && Straight(b)
  {
    var all := batches + [b];
    assert all[|batches|] == b && forall i :: 0 <= i < |batches| ==> all[i] == batches[i];
    hide Straight;
  }

  lemma StraightBatch(b: Batch)
    requires Distinct(b.retried + b.buffered)
    ensures b.buffered + b.retried == b.retried + b.buffered <==> Straight(b)
  {
    if Straight(b) {
      assert b.buffered + b.retried == b.retried + b.buffered;
    } else {
      var s := b.retried + b.buffered;
      assert s[0] != s[|b.retried|];
      assert (b.buffered + b.retried)[0] == s[|b.retried|];
    }
  }

  lemma {:induction false} StraightIff(batches: seq<Batch>)
    requires Distinct(Arrived(batches))
    ensures Sent(batches) == Arrived(batches) <==> AllStraight(batches)
  {
    if batches != [] {
      var n := |batches| - 1;
      var b := batches[n];
      DistinctParts(Arrived(batches[..n]), b.retried + b.buffered);
      StraightIff(batches[..n]);
      StraightBatch(b);
      StraightSnoc(batches[..n], b);
      assert batches == batches[..n] + [b];
      SameLines(batches[..n]);
      SplitEqual(Sent(batches[..n]), b.buffered + b.retried, Arrived(batches[..n]), b.retried + b.buffered);
      hide Distinct, Straight, AllStraight;
    }
  }

  lemma SplitEqual(a: seq<Entry>, b: seq<Entry>, c: seq<Entry>, d: seq<Entry>)
    requires |a| == |c|
    ensures a + b == c + d <==> a == c && b == d
  {
    if a + b == c + d {
      assert (a + b)[..|a|] == a && (c + d)[..|a|] == c;
      assert (a + b)[|a|..] == b && (c + d)[|a|..] == d;
    }
  }

  lemma {:induction false} StraightSent(batches: seq<Batch>)
    requires AllStraight(batches)
    ensures Sent(batches) == Arrived(batches)
  {
    if batches != [] {
      var b := batches[|batches| - 1];
      StraightSent(batches[..|batches| - 1]);
      assert b.buffered + b.retried == b.retried + b.buffered;
    }
  }

  // Without a failed send, lines are delivered in the order they came.
  lemma InOrderWithoutFailure(limits: Limits, start: real, events: seq<Event>)
    requires Run(limits, start, events).failures == 0
    ensures var w := Run(limits, start, events); Sent(w.batches) + w.buf == w.accepted
  {
    var w := Run(limits, start, events);
    RunConserves(limits, start, events);
    StraightSent(w.batches);
    assert Arrived(w.batches) + [] == Arrived(w.batches);
  }

  lemma InOrderIffStraight(limits: Limits, start: real, events: seq<Event>)
    requires Distinct(Run(limits, start, events).accepted)
    ensures var w := Run(limits, start, events); Sent(w.batches) <= w.accepted <==> AllStraight(w.batches)
  {
    var w := Run(limits, start, events);
    RunConserves(limits, start, events);
    var arrived := Arrived(w.batches);
    assert w.accepted[..|arrived|] == arrived;
    assert Distinct(arrived) by {
      forall i, j | 0 <= i < j < |arrived| ensures arrived[i] != arrived[j] {
        assert w.accepted[i] != w.accepted[j];
      }
    }
    StraightIff(w.batches);
    SameLines(w.batches);
  }

  // ---- The same, told before each call ----

  predicate Triggers(limits: Limits, w: World, checked: real) {
    |w.buf| + 1 >= limits.sendAfterLines || checked - w.lastSent >= limits.sendAfterSeconds
  }

  // With lines of a failed send pending, the event sends new ones along and is answered.
  predicate Mixes(limits: Limits, w: World, event: Event) {
    w.retrybuf != [] && event.ok && (if event.Arrives? then Triggers(limits, w, event.checked) else w.buf != [])
  }

  ghost predicate NeverMixes(limits: Limits, start: real, events: seq<Event>) {
    forall j :: 0 <= j < |events| ==> !Mixes(limits, Run(limits, start, events[..j]), events[j])
  }

  lemma StraightNext(limits: Limits, w: World, event: Event)
    ensures AllStraight(Next(limits, w, event).batches) <==> AllStraight(w.batches) && !Mixes(limits, w, event)
  {
    hide AllStraight;
    match event
    case Arrives(line, stored, _, _, _) => StraightSnoc(w.batches, Batch(w.buf + [Entry(stored, line)], w.retrybuf));
    case Flushes(_, _) => StraightSnoc(w.batches, Batch(w.buf, w.retrybuf));
  }

  lemma NeverMixesLast(limits: Limits, start: real, events: seq<Event>)
    requires events != []
    ensures var n := |events| - 1;
            NeverMixes(limits, start, events) <==>
            NeverMixes(limits, start, events[..n]) && !Mixes(limits, Run(limits, start, events[..n]), events[n])
  {
    hide Run, Mixes;
    var n := |events| - 1;
    forall j | 0 <= j < n ensures events[..n][..j] == events[..j] && events[..n][j] == events[j] {
    }
  }

  lemma {:induction false} StraightIffUnmixed(limits: Limits, start: real, events: seq<Event>)
    ensures AllStraight(Run(limits, start, events).batches) <==> NeverMixes(limits, start, events)
  {
    hide AllStraight, Mixes, Next;
    if events == [] {
      NoBatches(limits, start);
      return;
    }
    var n := |events| - 1;
    StraightIffUnmixed(limits, start, events[..n]);
    StraightNext(limits, Run(limits, start, events[..n]), events[n]);
    NeverMixesLast(limits, start, events);
    hide NeverMixes;
  }

  lemma NoBatches(limits: Limits, start: real)
    ensures AllStraight(Run(limits, start, []).batches)
  {
  }

  // As long as no call mixes new lines with failed ones, lines are delivered in
  // the order they came.
  lemma InOrderUnlessMixed(limits: Limits, start: real, events: seq<Event>)
    requires NeverMixes(limits, start, events)
    ensures var w := Run(limits, start, events); Sent(w.batches) + w.retrybuf + w.buf == w.accepted
  {
    StraightIffUnmixed(limits, start, events);
    RunConserves(limits, start, events);
    StraightSent(Run(limits, start, events).batches);
    hide Run, NeverMixes, Sent, Arrived, AllStraight;
  }

  // Lines that can be told apart are delivered in the order they came exactly if
  // no call mixes new lines with failed ones.
  lemma DeliveredInOrderIff(limits: Limits, start: real, events: seq<Event>)
    requires Distinct(Run(limits, start, events).accepted)
    ensures var w := Run(limits, start, events);
            Sent(w.batches) <= w.accepted <==> NeverMixes(limits, start, events)
  {
    InOrderIffStraight(limits, start, events);
    StraightIffUnmixed(limits, start, events);
    hide Run, NeverMixes, AllStraight, Sent;
  }

  // Whatever the limits: two lines that far apart in time, the send of the first
  // failing and that of the second answered, are turned around.
  lemma OrderLostAfterFailure(limits: Limits, a: string, b: string)
    ensures var s := limits.sendAfterSeconds;
            var w := Run(limits, 0.0, [Arrives(a, s, s, s, false), Arrives(b, s + s, s + s, s + s, true)]);
            Sent(w.batches) == [Entry(s + s, b), Entry(s, a)] && w.accepted == [Entry(s, a), Entry(s + s, b)]
  {
    var s := limits.sendAfterSeconds;
    var first, second := Arrives(a, s, s, s, false), Arrives(b, s + s, s + s, s + s, true);
    var w1 := World([], [Entry(s, a)], s, [Entry(s, a)], [], 1);
    FirstFails(limits, first, a);
    assert w1.buf + [Entry(s + s, b)] == [Entry(s + s, b)];
    var w2 := Next(limits, w1, second);
    assert w2.batches == [Batch([Entry(s + s, b)], [Entry(s, a)])] && w2.batches[..0] == [];
    assert [first, second] == [first] + [second];
    RunSnoc(limits, 0.0, [first], second);
    hide Run;
  }

  lemma FirstFails(limits: Limits, first: Event, a: string)
    requires var s := limits.sendAfterSeconds; first == Arrives(a, s, s, s, false)
    ensures var s := limits.sendAfterSeconds;
            Run(limits, 0.0, [first]) == World([], [Entry(s, a)], s, [Entry(s, a)], [], 1)
  {
    var s := limits.sendAfterSeconds;
    assert [first] == [] + [first];
    RunSnoc(limits, 0.0, [], first);
    assert Start(0.0).buf + [Entry(s, a)] == [Entry(s, a)];
  }

  // With the limits the wrappers use, two lines two seconds apart will do.
  lemma OrderLostByDefault(a: string, b: string)
    ensures var w := Run(DEFAULT_LIMITS, 0.0, [Arrives(a, 2.0, 2.0, 2.0, false), Arrives(b, 4.0, 4.0, 4.0, true)]);
            Sent(w.batches) == [Entry(4.0, b), Entry(2.0, a)] && w.accepted == [Entry(2.0, a), Entry(4.0, b)]
  {
    OrderLostAfterFailure(DEFAULT_LIMITS, a, b);
    hide Run, Sent;
  }

  lemma RunSnoc(limits: Limits, start: real, events: seq<Event>, event: Event)
    ensures Run(limits, start, events + [event]) == Next(limits, Run(limits, start, events), event)
  {
    assert (events + [event])[..|events|] == events;
    hide Next;
  }

  // ---- When lines are sent ----

  // What was taken in is what arrived, with the time at which it was stored.
  function Lines(events: seq<Event>): seq<Entry> {
    if events == [] then []
    else
      var e := events[|events| - 1];
      Lines(events[..|events| - 1]) + if e.Arrives? then [Entry(e.stored, e.line)] else []
  }

  lemma {:induction false} AcceptedIsArrived(limits: Limits, start: real, events: seq<Event>)
    ensures Run(limits, start, events).accepted == Lines(events)
  {
    if events != [] {
      AcceptedIsArrived(limits, start, events[..|events| - 1]);
    }
  }

  // The event calls the server.
  predicate Sends(limits: Limits, w: World, event: Event) {
    if event.Arrives? then Triggers(limits, w, event.checked) else w.buf != [] || w.retrybuf != []
  }

  function TimeOf(event: Event): real {
    if event.Arrives? then event.sent else event.now
  }

  ghost predicate LastSendIs(limits: Limits, start: real, events: seq<Event>, k: nat) {
    && 0 < k <= |events| && Sends(limits, Run(limits, start, events[..k - 1]), events[k - 1])
    && forall j :: k <= j < |events| ==> !Sends(limits, Run(limits, start, events[..j]), events[j])
  }

  ghost predicate NeverSends(limits: Limits, start: real, events: seq<Event>) {
    forall j :: 0 <= j < |events| ==> !Sends(limits, Run(limits, start, events[..j]), events[j])
  }

  lemma SendsStep(limits: Limits, w: World, event: Event)
    ensures Next(limits, w, event).lastSent == if Sends(limits, w, event) then TimeOf(event) else w.lastSent
  {
  }

  lemma LastSendStep(limits: Limits, start: real, events: seq<Event>)
    requires events != []
    ensures var n := |events| - 1;
            var front := events[..n];
            if Sends(limits, Run(limits, start, front), events[n]) then LastSendIs(limits, start, events, n + 1)
            else
              && (forall k: nat :: LastSendIs(limits, start, front, k) ==> LastSendIs(limits, start, events, k))
              && (NeverSends(limits, start, front) ==> NeverSends(limits, start, events))
  {
    hide Run, Sends;
    var n := |events| - 1;
    forall j | 0 <= j <= n ensures events[..n][..j] == events[..j] {
    }
  }

  // The clock of the delay is the time of the last call that had something to
  // send, whatever the answer; before any, the start.
  lemma {:induction false} LastSentIsLastSend(limits: Limits, start: real, events: seq<Event>)
    ensures var w := Run(limits, start, events);
            || (NeverSends(limits, start, events) && w.lastSent == start)
            || exists k: nat :: LastSendIs(limits, start, events, k) && w.lastSent == TimeOf(events[k - 1])
  {
    if events == [] {
      return;
    }
    hide Sends, Next, LastSendIs, NeverSends, TimeOf;
    var n := |events| - 1;
    var front := events[..n];
    LastSentIsLastSend(limits, start, front);
    SendsStep(limits, Run(limits, start, front), events[n]);
    LastSendStep(limits, start, events);
    LastSendInRange(limits, start, front);
    if !Sends(limits, Run(limits, start, front), events[n]) && !NeverSends(limits, start, front) {
      var k: nat :| LastSendIs(limits, start, front, k) &&
                    Run(limits, start, front).lastSent == TimeOf(front[k - 1]);
      assert front[k - 1] == events[k - 1];
    }
  }

  lemma LastSendInRange(limits: Limits, start: real, events: seq<Event>)
    ensures forall k: nat :: LastSendIs(limits, start, events, k) ==> 0 < k <= |events|
  {
  }

  // A line is kept back, with nothing sent, exactly if the buffer with it is
  // below the limit and the delay since the last call is.
  lemma KeptIff(limits: Limits, w: World, line: string, stored: real, checked: real, sent: real, ok: bool)
    ensures var w' := Append(limits, w, line, stored, checked, sent, ok);
            w'.buf == w.buf + [Entry(stored, line)] && w'.batches == w.batches && w'.failures == w.failures <==>
            |w.buf| + 1 < limits.sendAfterLines && checked - w.lastSent < limits.sendAfterSeconds
  {
  }

  // After a call that sends at time t, answered or not, the next line is kept
  // exactly if one line is below the limit and less than the delay has passed since t.
  lemma PacedAfterSend(limits: Limits, w: World, event: Event, next: Event)
    requires Sends(limits, w, event) && next.Arrives?
    ensures var w1 := Next(limits, w, event);
            var w2 := Next(limits, w1, next);
            && w1.buf == []
            && (w2.buf == [Entry(next.stored, next.line)] && w2.batches == w1.batches && w2.failures == w1.failures <==>
                1 < limits.sendAfterLines && next.checked - TimeOf(event) < limits.sendAfterSeconds)
  {
    var w1 := Next(limits, w, event);
    SendsStep(limits, w, event);
    assert w1.buf == [];
    KeptIff(limits, w1, next.line, next.stored, next.checked, next.sent, next.ok);
    assert [] + [Entry(next.stored, next.line)] == [Entry(next.stored, next.line)];
  }

  // With the default limits: the 200th line, or two seconds.
  lemma KeptByDefault(start: real, events: seq<Event>, next: Event)
    requires next.Arrives?
    ensures var w := Run(DEFAULT_LIMITS, start, events);
            && |w.buf| < 200
            && (Next(DEFAULT_LIMITS, w, next).buf == w.buf + [Entry(next.stored, next.line)] <==>
                |w.buf| + 1 < 200 && next.checked - w.lastSent < 2.0)
  {
    RunConserves(DEFAULT_LIMITS, start, events);
    var w := Run(DEFAULT_LIMITS, start, events);
    KeptIff(DEFAULT_LIMITS, w, next.line, next.stored, next.checked, next.sent, next.ok);
    hide Run;
  }

  // ---- The final flush ----

  const TRIES: nat := 5

  // tries more attempts after the i-th, whose answer is answers(i).
  function Flush(w: World, now: nat -> real, answers: nat -> bool, i: nat, tries: nat): World
    decreases tries
  {
    var (w', done) := Submit(w, now(i), answers(i));
    if done || tries == 0 then w' else Flush(w', now, answers, i + 1, tries - 1)
  }

  // It ends with nothing pending exactly if nothing was, or one of six sends is
  // answered; else it made six failed sends and everything is still pending, in order.
  lemma {:induction false} FlushOutcome(w: World, now: nat -> real, answers: nat -> bool, i: nat, tries: nat)
    requires Conserved(w)
    ensures var w' := Flush(w, now, answers, i, tries);
            && Conserved(w') && w'.accepted == w.accepted
            && (w'.Pending() == [] <==> w.Pending() == [] || exists j :: i <= j <= i + tries && answers(j))
            && (w'.Pending() != [] ==> w'.failures == w.failures + tries + 1 && w'.retrybuf == w.Pending() &&
                                       w'.buf == [] && w'.batches == w.batches)
    decreases tries
  {
    SubmitConserves(w, now(i), answers(i));
    var (w1, done) := Submit(w, now(i), answers(i));
    if !done && tries > 0 {
      FlushOutcome(w1, now, answers, i + 1, tries - 1);
      assert w1.Pending() == w.Pending();
    }
  }

  // The flush of the wrappers makes up to six sends.
  lemma SixTries(w: World, now: nat -> real, answers: nat -> bool)
    requires Conserved(w)
    ensures var w' := Flush(w, now, answers, 0, TRIES);
            && (w'.Pending() == [] <==> w.Pending() == [] || exists j :: 0 <= j < 6 && answers(j))
            && (w'.Pending() != [] ==> w'.failures == w.failures + 6 && w'.retrybuf == w.Pending())
  {
    FlushOutcome(w, now, answers, 0, TRIES);
    hide Flush, Conserved;
  }

  // ---- The appender as buildlogger runs it ----

  class Appender {
    const limits: Limits
    var buf: seq<Entry>
    var retrybuf: seq<Entry>
    var lastSent: real
    ghost var accepted: seq<Entry>
    ghost var batches: seq<Batch>
    ghost var failures: nat

    ghost function Current(): World
      reads this
    {
      World(buf, retrybuf, lastSent, accepted, batches, failures)
    }

    constructor (limits: Limits, now: real)
      ensures this.limits == limits && Current() == Start(now)
    {
      this.limits := limits;
      buf, retrybuf, lastSent, accepted, batches, failures := [], [], now, [], [], 0;
    }

    // ok is what the callback answers if it is called.
    method SubmitBuffers(now: real, ok: bool) returns (done: bool)
      modifies this
      ensures (Current(), done) == Submit(old(Current()), now, ok)
    {
      if |buf| + |retrybuf| == 0 {
        return true;
      }
      lastSent := now;
      if ok {
        batches := batches + [Batch(buf, retrybuf)];
        buf := [];
        retrybuf := [];
        done := true;
      } else {
        failures := failures + 1;
        retrybuf := retrybuf + buf;
        buf := [];
        done := false;
      }
    }

    method AppendLine(line: string, stored: real, checked: real, sent: real, ok: bool)
      modifies this
      ensures Current() == Append(limits, old(Current()), line, stored, checked, sent, ok)
    {
      buf := buf + [Entry(stored, line)];
      accepted := accepted + [Entry(stored, line)];
      var delay := checked - lastSent;
      if |buf| >= limits.sendAfterLines || delay >= limits.sendAfterSeconds {
        var _ := SubmitBuffers(sent, ok);
      }
    }

    method FinalFlush(now: nat -> real, answers: nat -> bool)
      modifies this
      ensures Current() == Flush(old(Current()), now, answers, 0, TRIES)
    {
      var tries, i := TRIES, 0;
      var done := SubmitBuffers(now(0), answers(0));
      while !done && tries > 0
        invariant tries >= 0
        invariant Flush(old(Current()), now, answers, 0, TRIES) ==
                  if done || tries == 0 then Current() else Flush(Current(), now, answers, i + 1, tries - 1)
      {
        tries, i := tries - 1, i + 1;
        done := SubmitBuffers(now(i), answers(i));
      }
    }
  }
}
