/** What every interleaving of the writer, the event streams and the report requests keeps. */
module SessionGuarantees {
  import opened SessionProtocol
  import opened Wrappers

  // ---------------------------------------------------------------- over time

  /** From `s` to a later `t`: the log has only grown and the run has not restarted, and a
      stream has only sent more, or nothing more once it has ended. */
  ghost predicate Later(s: State, t: State, i: int) {
    && Onward(s, t)
    && (0 <= i < |s.streams| ==> i < |t.streams| && s.streams[i].sent <= t.streams[i].sent)
    && (0 <= i < |s.streams| && s.streams[i].phase == Closed ==> t.streams[i] == s.streams[i])
  }

  lemma NextIsLater(order: Order, s: State, step: Step, i: int)
    requires Inv(order, s) && Next(order, s, step).Some?
    ensures Later(s, Next(order, s, step).value, i)
  {
    NextWriter(order, s, step);
  }

  lemma {:induction false} RunIsLater(order: Order, steps: seq<Step>, n: nat, i: int)
    requires n <= |steps| && After(order, steps).Some?
    ensures After(order, steps[..n]).Some? && Later(After(order, steps[..n]).value, After(order, steps).value, i)
    decreases |steps|
  {
    if n == |steps| {
      assert steps[..n] == steps;
    } else {
      var init := steps[..|steps|-1];
      assert init[..n] == steps[..n];
      RunIsLater(order, init, n, i);
      EveryRun(order, init);
      NextIsLater(order, After(order, init).value, steps[|steps|-1], i);
    }
  }

  /** Every stream has sent, at every moment of every run, a gapless, duplicate-free, in-order
      prefix of the log; what it has sent is never revised; and the log itself is append-only. */
  lemma StreamsSendPrefixes(order: Order, steps: seq<Step>, n: nat, i: nat)
    requires n <= |steps| && After(order, steps).Some? && After(order, steps[..n]).Some?
    requires i < |After(order, steps[..n]).value.streams|
    ensures var s, t := After(order, steps[..n]).value, After(order, steps).value;
      && s.events <= t.events && i < |t.streams|
      && s.streams[i].sent <= s.events && t.streams[i].sent <= t.events
      && s.streams[i].sent <= t.streams[i].sent
      && (s.streams[i].phase == Closed ==> t.streams[i] == s.streams[i])
  {
    RunIsLater(order, steps, n, i);
    EveryRun(order, steps);
    EveryRun(order, steps[..n]);
    assert StreamFine(order, After(order, steps[..n]).value, i);
    assert StreamFine(order, After(order, steps).value, i);
  }

  /** Once a run has ended it never shows as running again; completed means that there is a
      report, for good; so the assertion in the report request, which looks at the status twice
      and at the report afterwards, never fails, whatever happens between the looks. */
  lemma ReportIsThere(order: Order, steps: seq<Step>, n: nat)
    requires n <= |steps| && After(order, steps).Some?
    ensures After(order, steps[..n]).Some?
    ensures var s, t := After(order, steps[..n]).value, After(order, steps).value;
      && (s.status != Running ==> t.status != Running)
      && (s.status == Done ==> s.report && t.report)
      && (forall i :: 0 <= i < |t.requests| ==> t.requests[i] != AssertionFails)
  {
    RunIsLater(order, steps, n, 0);
    EveryRun(order, steps);
    EveryRun(order, steps[..n]);
    EndIsBacked(order, After(order, steps[..n]).value);
    var t := After(order, steps).value;
    forall i | 0 <= i < |t.requests|
      ensures t.requests[i] != AssertionFails
    {
      assert RequestFine(t, i);
    }
  }

  // ---------------------------------------------------------------- the log

  lemma WriterLog(order: Order, s: State)
    requires WriterFine(order, s)
    ensures s.events == [] || exists done, broken :: Log(s.events, done, broken)
    ensures s.writer == Ended ==> exists done, broken :: Log(s.events, done, broken) && (broken <==> s.status == Broken) && (done || broken)
  {
    match s.writer {
      case AtNode(n) => assert Log(s.events, false, false);
      case Reported => assert Log(s.events, false, false);
      case HalfDone => assert Log(s.events, order.emitFirst, false);
      case _ =>
    }
  }

  /** Event `i` comes before event `j`: progress does not fall, and only a completion followed
      by a failure has anything after it. */
  ghost predicate InOrder(events: seq<Event>, i: int, j: int) {
    0 <= i < j < |events| ==>
      && events[i].progress <= events[j].progress
      && (Terminal(events[i]) ==> events[i] == COMPLETED && events[j] == FAILED)
  }

  /** The nodes up to the completion: all of them, each once and in order. */
  ghost predicate NodesFirst(events: seq<Event>) {
    COMPLETED in events ==> |events| > NODES && events[..NODES + 1] == Opening(NODES)
  }

  lemma OpeningAt(n: nat, i: nat)
    requires i <= n
    ensures |Opening(n)| == n + 1
    ensures Opening(n)[i] == if i == 0 then CONNECTION else NodeEvent(i - 1)
  {
  }

  /** The progress of node `place` of ten: the whole part of ten plus its share of 85, which stays
      strictly between that of the connection and that of the end. */
  lemma ProgressIsShare(place: nat)
    requires place < NODES
    ensures 10 * Progress(place) <= 100 + 85 * (place + 1) < 10 * (Progress(place) + 1)
    ensures CONNECTION.progress < Progress(place) < COMPLETED.progress == FAILED.progress
  {
  }

  lemma LogClimbs(events: seq<Event>, n: nat, done: bool, broken: bool, i: int, j: int)
    requires n <= NODES && LogOf(events, n, done, broken)
    ensures InOrder(events, i, j)
  {
    if 0 <= i < j < |events| {
      if i <= n {
        OpeningAt(n, i);
      }
      if j <= n {
        OpeningAt(n, j);
      } else {
        assert events[j] == Ending(done, broken)[j - n - 1];
      }
      if i > n {
        assert events[i] == Ending(done, broken)[i - n - 1];
      }
    }
  }

  lemma CompletedAfterAll(events: seq<Event>, n: nat, done: bool, broken: bool)
    requires n <= NODES && (done ==> n == NODES) && LogOf(events, n, done, broken)
    ensures NodesFirst(events)
  {
    OpeningAt(n, 0);
    if done {
      assert events[..NODES + 1] == Opening(NODES);
    } else {
      forall i | 0 <= i < |events|
        ensures events[i] != COMPLETED
      {
        if i <= n {
          OpeningAt(n, i);
        } else {
          assert events[i] == Ending(done, broken)[i - n - 1];
        }
      }
    }
  }

  /** The log of every run: progress never falls, nothing but a failure follows a terminal
      event, and a completion is announced only after all ten nodes, each once and in order. */
  lemma LogIsOrdered(order: Order, steps: seq<Step>)
    requires After(order, steps).Some?
    ensures forall i, j :: InOrder(After(order, steps).value.events, i, j)
    ensures NodesFirst(After(order, steps).value.events)
  {
    var s := After(order, steps).value;
    EveryRun(order, steps);
    WriterLog(order, s);
    if done, broken :| Log(s.events, done, broken) {
      var n: nat :| n <= NODES && (done ==> n == NODES) && LogOf(s.events, n, done, broken);
      forall i, j
        ensures InOrder(s.events, i, j)
      {
        LogClimbs(s.events, n, done, broken, i, j);
      }
      CompletedAfterAll(s.events, n, done, broken);
    }
  }

  // ---------------------------------------------------------------- streams opened after the end

  /** In an ended run, a stream opened since has sent everything by the time it checks or closes. */
  ghost predicate Caught(s: State, i: int) {
    0 <= i < |s.streams| && (s.streams[i].phase == Closed || s.streams[i].phase == Checking) ==> s.streams[i].sent == s.events
  }

  lemma CaughtNext(order: Order, s: State, step: Step, i: int)
    requires Inv(order, s) && Next(order, s, step).Some? && s.writer == Ended && Caught(s, i)
    ensures Caught(Next(order, s, step).value, i)
    ensures Next(order, s, step).value.writer == Ended && Next(order, s, step).value.events == s.events
    ensures Next(order, s, step).value.status == s.status
  {
    assert StreamFine(order, s, i);
  }

  lemma {:induction false} LateRun(order: Order, steps: seq<Step>, n: nat, i: nat)
    requires n <= |steps| && After(order, steps).Some? && After(order, steps[..n]).Some?
    requires After(order, steps[..n]).value.writer == Ended && i >= |After(order, steps[..n]).value.streams|
    ensures After(order, steps).value.writer == Ended
    ensures After(order, steps).value.events == After(order, steps[..n]).value.events
    ensures Caught(After(order, steps).value, i)
    decreases |steps|
  {
    if n == |steps| {
      assert steps[..n] == steps;
    } else {
      var init := steps[..|steps|-1];
      assert init[..n] == steps[..n];
      LateRun(order, init, n, i);
      EveryRun(order, init);
      CaughtNext(order, After(order, init).value, steps[|steps|-1], i);
    }
  }

  /** A stream opened after the run has ended sends the whole log before it closes, a terminal
      event included; so it misses the end in no order of writes and reads. */
  lemma LateStreamSendsAll(order: Order, steps: seq<Step>, n: nat, i: nat)
    requires n <= |steps| && After(order, steps).Some? && After(order, steps[..n]).Some?
    requires After(order, steps[..n]).value.writer == Ended
    requires |After(order, steps[..n]).value.streams| <= i < |After(order, steps).value.streams|
    requires After(order, steps).value.streams[i].phase == Closed
    ensures After(order, steps).value.streams[i].sent == After(order, steps[..n]).value.events
    ensures HasEnd(After(order, steps).value.streams[i].sent)
  {
    LateRun(order, steps, n, i);
    EveryRun(order, steps[..n]);
    EndedHasEnd(order, After(order, steps[..n]).value);
  }

  lemma EndedHasEnd(order: Order, s: State)
    requires WriterFine(order, s) && s.writer == Ended
    ensures HasEnd(s.events)
  {
    WriterLog(order, s);
    var done, broken :| Log(s.events, done, broken) && (done || broken);
    LogHasEnd(s.events, done, broken);
  }

  /** How many steps of its own a stream has left in an ended run, at most. */
  function StepsLeft(order: Order, s: State, r: SessionProtocol.Stream): int {
    var missing := |s.events| - |r.sent|;
    match r.phase
    case Ready => missing + 3
    case Draining(sawEnd) => missing + if order.statusFirst && !sawEnd then 4 else 2
    case Checking => missing + 1
    case _ => 0
  }

  /** And it does close: in an ended run a stream always has a step, and each brings it nearer
      to its end. */
  lemma StreamsClose(order: Order, s: State, i: nat)
    requires Inv(order, s) && s.status != Running && i < |s.streams|
    ensures var r := s.streams[i];
      && 0 <= StepsLeft(order, s, r)
      && (StreamNext(order, s, r).None? <==> r.phase == Closed || r.phase == Gone)
      && (StreamNext(order, s, r).Some? ==> StepsLeft(order, s, StreamNext(order, s, r).value) < StepsLeft(order, s, r))
  {
    assert StreamFine(order, s, i);
  }

  ghost predicate StreamEndFine(s: State, steps: seq<Step>, i: nat) {
    && (i < |s.streams| && s.streams[i].phase == Closed ==> s.status != Running)
    && (i < |s.streams| && s.streams[i].phase == Gone ==> Disconnect(i) in steps)
    && (Disconnect(i) in steps ==> i < |s.streams| && s.streams[i].phase == Gone)
  }

  lemma StreamEndNext(order: Order, s: State, steps: seq<Step>, step: Step, i: nat)
    requires Inv(order, s) && StreamEndFine(s, steps, i) && Next(order, s, step).Some?
    ensures StreamEndFine(Next(order, s, step).value, steps + [step], i)
  {
    NextStream(order, s, step, i);
  }

  /** In every run, a stream is closed only once the analysis is over, and left early exactly when
      its client has disconnected. */
  lemma {:induction false} StreamsEnd(order: Order, steps: seq<Step>, i: nat)
    requires After(order, steps).Some?
    ensures StreamEndFine(After(order, steps).value, steps, i)
  {
    if steps == [] {
    } else {
      var k := |steps| - 1;
      StreamsEnd(order, steps[..k], i);
      EveryRun(order, steps[..k]);
      StreamEndNext(order, After(order, steps[..k]).value, steps[..k], steps[k], i);
      assert steps == steps[..k] + [steps[k]];
    }
  }

  // ---------------------------------------------------------------- the terminal event

  /** In no run does a stream close without having sent a terminal event. */
  ghost predicate EndAlwaysSent(order: Order) {
    forall steps, i :: EndSent(order, steps, i)
  }

  ghost predicate EndSent(order: Order, steps: seq<Step>, i: nat) {
    After(order, steps).Some? && i < |After(order, steps).value.streams| && After(order, steps).value.streams[i].phase == Closed ==>
      HasEnd(After(order, steps).value.streams[i].sent)
  }

  lemma OneMoreStep(order: Order, steps: seq<Step>, s: State, step: Step) returns (more: seq<Step>, t: State)
    requires After(order, steps) == Some(s) && Next(order, s, step).Some?
    ensures more == steps + [step] && t == Next(order, s, step).value && After(order, more) == Some(t)
  {
    more, t := steps + [step], Next(order, s, step).value;
    assert more[..|more|-1] == steps;
  }

  /** An analysis that has failed right after its first event, and one stream. */
  lemma Watched(order: Order) returns (steps: seq<Step>, s: State)
    ensures After(order, steps) == Some(s)
    ensures s == State([CONNECTION], Running, false, None, Raised, [Stream.Stream([], Ready)], [])
  {
    steps, s := OneMoreStep(order, [], START, Announce);
    steps, s := OneMoreStep(order, steps, s, Raise);
    steps, s := OneMoreStep(order, steps, s, Connect);
  }

  /** The status is written before the terminal event, and the stream drains in between. */
  lemma StatusTooEarly(order: Order) returns (steps: seq<Step>)
    requires !order.emitFirst
    ensures !EndSent(order, steps, 0)
  {
    var s: State;
    steps, s := Watched(order);
    steps, s := OneMoreStep(order, steps, s, Write);
    steps, s := OneMoreStep(order, steps, s, Step.Stream(0));
    steps, s := OneMoreStep(order, steps, s, Step.Stream(0));
    steps, s := OneMoreStep(order, steps, s, Step.Stream(0));
    if !order.statusFirst {
      steps, s := OneMoreStep(order, steps, s, Step.Stream(0));
    }
    assert s.streams[0].phase == Closed && s.streams[0].sent == [CONNECTION];
  }

  /** The stream drains, the analysis ends, and only then does the stream look at the status. */
  lemma StatusReadTooLate(order: Order) returns (steps: seq<Step>)
    requires order.emitFirst && !order.statusFirst
    ensures !EndSent(order, steps, 0)
  {
    var s: State;
    steps, s := Watched(order);
    steps, s := OneMoreStep(order, steps, s, Step.Stream(0));
    steps, s := OneMoreStep(order, steps, s, Step.Stream(0));
    steps, s := OneMoreStep(order, steps, s, Step.Stream(0));
    steps, s := OneMoreStep(order, steps, s, Write);
    steps, s := OneMoreStep(order, steps, s, WriteNext);
    steps, s := OneMoreStep(order, steps, s, Step.Stream(0));
    assert s.streams[0].phase == Closed && s.streams[0].sent == [CONNECTION];
  }

  /** Whether every closed stream has sent a terminal event is decided by the order of two writes
      and of two reads: exactly when the writer emits before it sets the status, and the reader
      reads the status before it drains. The source does neither, so a stream can end early. */
  lemma EndAlwaysSentIff(order: Order)
    ensures EndAlwaysSent(order) <==> order.emitFirst && order.statusFirst
  {
    if order.emitFirst && order.statusFirst {
      forall steps, i: nat
        ensures EndSent(order, steps, i)
      {
        if After(order, steps).Some? {
          EveryRun(order, steps);
          assert StreamFine(order, After(order, steps).value, i);
        }
      }
    } else if !order.emitFirst {
      var steps := StatusTooEarly(order);
    } else {
      var steps := StatusReadTooLate(order);
    }
  }

  // ---------------------------------------------------------------- one stream, one run

  /** Step `n` is stream `i` finding that it has sent all there is. */
  ghost predicate LeavesDrain(order: Order, steps: seq<Step>, n: int, i: nat) {
    && 0 <= n < |steps| && steps[n] == Step.Stream(i) && After(order, steps[..n]).Some?
    && i < |After(order, steps[..n]).value.streams|
    && After(order, steps[..n]).value.streams[i].phase.Draining?
    && |After(order, steps[..n]).value.streams[i].sent| >= |After(order, steps[..n]).value.events|
  }

  /** Where stream `i` last did so. */
  ghost function LastDrain(order: Order, steps: seq<Step>, i: nat): Option<nat> {
    if steps == [] then None
    else if LeavesDrain(order, steps, |steps| - 1, i) then Some(|steps| - 1)
    else LastDrain(order, steps[..|steps|-1], i)
  }

  /** What a stream that is past its drain has sent: the log as it stood when it left it. */
  ghost predicate SentAtLastDrain(order: Order, steps: seq<Step>, i: nat)
    requires After(order, steps).Some? && i < |After(order, steps).value.streams|
  {
    && LastDrain(order, steps, i).Some?
    && var n := LastDrain(order, steps, i).value;
       && LeavesDrain(order, steps, n, i)
       && After(order, steps).value.streams[i].sent == After(order, steps[..n]).value.events
  }

  lemma LeavesDrainBefore(order: Order, steps: seq<Step>, n: nat, i: nat)
    requires n < |steps| - 1
    ensures steps[..|steps|-1][..n] == steps[..n]
    ensures LeavesDrain(order, steps[..|steps|-1], n, i) <==> LeavesDrain(order, steps, n, i)
  {
    assert steps[..|steps|-1][..n] == steps[..n];
  }

  lemma {:induction false} LastDrainIn(order: Order, steps: seq<Step>, i: nat)
    ensures LastDrain(order, steps, i).Some? ==> LastDrain(order, steps, i).value < |steps|
  {
    if steps == [] {
    } else {
      LastDrainIn(order, steps[..|steps|-1], i);
    }
  }

  /** A step of the stream itself: it comes past its drain by leaving it, or is past it already. */
  lemma PastDrainNext(order: Order, s: State, step: Step, i: nat)
    requires WriterFine(order, s) && Next(order, s, step).Some? && i < |Next(order, s, step).value.streams|
    requires Next(order, s, step).value.streams[i].phase in {Checking, Closed}
    ensures i < |s.streams| && s.streams[i].sent == Next(order, s, step).value.streams[i].sent
    ensures s.streams[i].phase.Draining? ==> step == Step.Stream(i) && |s.streams[i].sent| >= |s.events|
    ensures !s.streams[i].phase.Draining? ==> s.streams[i].phase in {Checking, Closed}
  {
  }

  lemma {:induction false} PastDrain(order: Order, steps: seq<Step>, i: nat)
    requires After(order, steps).Some? && i < |After(order, steps).value.streams|
    requires After(order, steps).value.streams[i].phase in {Checking, Closed}
    ensures SentAtLastDrain(order, steps, i)
    decreases |steps|
  {
    if steps == [] {
    } else {
      var k := |steps| - 1;
      var s := After(order, steps[..k]).value;
      EveryRun(order, steps[..k]);
      assert StreamFine(order, s, i);
      PastDrainNext(order, s, steps[k], i);
      if s.streams[i].phase.Draining? {
        assert LeavesDrain(order, steps, k, i);
        assert s.streams[i].sent == s.events;
      } else {
        PastDrain(order, steps[..k], i);
        LastDrainIn(order, steps[..k], i);
        LeavesDrainBefore(order, steps, LastDrain(order, steps[..k], i).value, i);
      }
    }
  }

  /** In every run and every order: a closed stream has sent exactly the log as it stood when the
      stream last left its drain. So it has missed the terminal event exactly when the log held
      none at that moment. */
  lemma EndMissedIff(order: Order, steps: seq<Step>, i: nat) returns (n: nat)
    requires After(order, steps).Some? && i < |After(order, steps).value.streams|
    requires After(order, steps).value.streams[i].phase == Closed
    ensures LastDrain(order, steps, i) == Some(n) && LeavesDrain(order, steps, n, i)
    ensures After(order, steps).value.streams[i].sent == After(order, steps[..n]).value.events
    ensures HasEnd(After(order, steps).value.streams[i].sent) <==> HasEnd(After(order, steps[..n]).value.events)
  {
    PastDrain(order, steps, i);
    n := LastDrain(order, steps, i).value;
  }

  // The source sets the status before it emits, and drains before it reads the status.
  const SOURCE := Order(false, false)

  /** When the log of the source's own order holds a terminal event: from the write after the
      status on. */
  ghost predicate Announcing(s: State) {
    s.writer == Announced || s.writer == Ended || (s.writer in {Raised, NoError, HalfBroken} && COMPLETED in s.events)
  }

  lemma SourceHasEnd(s: State)
    requires WriterFine(SOURCE, s)
    ensures HasEnd(s.events) <==> Announcing(s)
  {
    WriterLog(SOURCE, s);
    if s.writer == Ended {
      EndedHasEnd(SOURCE, s);
    }
    if HasEnd(s.events) {
      var i :| 0 <= i < |s.events| && Terminal(s.events[i]);
      EndOnlyThen(s, i);
    }
    if COMPLETED in s.events {
      var i :| 0 <= i < |s.events| && s.events[i] == COMPLETED;
      assert Terminal(s.events[i]);
    }
    if s.writer == Announced {
      LogHasEnd(s.events, true, false);
    }
  }

  lemma EndOnlyThen(s: State, i: nat)
    requires WriterFine(SOURCE, s) && i < |s.events| && Terminal(s.events[i])
    ensures Announcing(s)
  {
    match s.writer {
      case AtNode(n) => NoEndInOpening(s.events, n, i);
      case Reported => NoEndInOpening(s.events, NODES, i);
      case HalfDone => NoEndInOpening(s.events, NODES, i);
      case _ =>
        if s.writer in {Raised, NoError, HalfBroken} {
          OnlyCompleted(s.events, i);
        }
    }
  }

  lemma NoEndInOpening(events: seq<Event>, n: nat, i: nat)
    requires LogOf(events, n, false, false) && i < |events|
    ensures !Terminal(events[i])
  {
    OpeningAt(n, if i <= n then i else 0);
  }

  lemma OnlyCompleted(events: seq<Event>, i: nat)
    requires EitherLog(events, false) && i < |events| && Terminal(events[i])
    ensures events[i] == COMPLETED
  {
    var done :| Log(events, done, false);
    var n: nat :| n <= NODES && (done ==> n == NODES) && LogOf(events, n, done, false);
    OpeningAt(n, if i <= n then i else 0);
  }

  /** In the source's own order a closed stream has sent no terminal event exactly when it last
      left its drain before the writer had emitted one. */
  lemma SourceMissesEndIff(steps: seq<Step>, i: nat) returns (n: nat)
    requires After(SOURCE, steps).Some? && i < |After(SOURCE, steps).value.streams|
    requires After(SOURCE, steps).value.streams[i].phase == Closed
    ensures LastDrain(SOURCE, steps, i) == Some(n) && n < |steps| && After(SOURCE, steps[..n]).Some?
    ensures !HasEnd(After(SOURCE, steps).value.streams[i].sent) <==> !Announcing(After(SOURCE, steps[..n]).value)
  {
    n := EndMissedIff(SOURCE, steps, i);
    EveryRun(SOURCE, steps[..n]);
    SourceHasEnd(After(SOURCE, steps[..n]).value);
  }

  // ---------------------------------------------------------------- runs worth knowing

  lemma {:induction false} AllAnnounced(n: nat) returns (steps: seq<Step>, s: State)
    requires n <= NODES
    ensures After(SOURCE, steps) == Some(s) && s == State(Opening(n), Running, false, None, AtNode(n), [], [])
  {
    if n == 0 {
      steps, s := OneMoreStep(SOURCE, [], START, Announce);
      assert Opening(0) == [CONNECTION];
    } else {
      steps, s := AllAnnounced(n - 1);
      steps, s := OneMoreStep(SOURCE, steps, s, Announce);
      assert Opening(n - 1) + [NodeEvent(n - 1)] == Opening(n);
    }
  }

  /** A completed analysis can still turn into a failed one, when its snapshot cannot be saved,
      and then its log ends in both terminal events. */
  lemma CompletedMayFail() returns (steps: seq<Step>, n: nat)
    ensures n < |steps| && After(SOURCE, steps[..n]).Some? && After(SOURCE, steps[..n]).value.status == Done
    ensures After(SOURCE, steps).Some? && After(SOURCE, steps).value.status == Broken
    ensures After(SOURCE, steps).value.events == Opening(NODES) + [COMPLETED, FAILED]
  {
    var s: State;
    steps, s := AllAnnounced(NODES);
    steps, s := OneMoreStep(SOURCE, steps, s, SetReport);
    steps, s := OneMoreStep(SOURCE, steps, s, Write);
    steps, s := OneMoreStep(SOURCE, steps, s, WriteNext);
    n := |steps|;
    ghost var done := steps;
    steps, s := OneMoreStep(SOURCE, steps, s, SaveRaises);
    steps, s := OneMoreStep(SOURCE, steps, s, Write);
    steps, s := OneMoreStep(SOURCE, steps, s, SetError("disk"));
    steps, s := OneMoreStep(SOURCE, steps, s, WriteNext);
    assert steps[..n] == done;
  }

  // ---------------------------------------------------------------- the reason of a failure

  /** A broken session has its reason, except between the two writes; before, there is none. */
  ghost predicate ReasonFine(s: State) {
    && (s.status == Broken ==> (s.error.None? <==> s.writer == NoError))
    && (s.status != Broken ==> s.error.None?)
  }

  lemma ReasonNext(order: Order, s: State, step: Step)
    requires WriterFine(order, s) && ReasonFine(s) && Next(order, s, step).Some?
    ensures ReasonFine(Next(order, s, step).value)
  {
  }

  /** In every run a failed session lacks its reason exactly while the writer stands between
      writing the status and writing the reason. */
  lemma {:induction false} ReasonAlwaysFine(order: Order, steps: seq<Step>)
    requires After(order, steps).Some?
    ensures ReasonFine(After(order, steps).value)
  {
    if steps == [] {
    } else {
      var init := steps[..|steps|-1];
      ReasonAlwaysFine(order, init);
      EveryRun(order, init);
      ReasonNext(order, After(order, init).value, steps[|steps|-1]);
    }
  }

  /** Step `n` is request `i`, which has seen the failure, reading the reason while the writer
      stands between the writes. */
  ghost predicate LooksTooSoon(order: Order, steps: seq<Step>, n: int, i: nat) {
    && 0 <= n < |steps| && steps[n] == Look(i) && After(order, steps[..n]).Some?
    && i < |After(order, steps[..n]).value.requests|
    && After(order, steps[..n]).value.requests[i] == SawBroken
    && After(order, steps[..n]).value.writer == NoError
  }

  lemma TooSoonBefore(order: Order, steps: seq<Step>, n: int, i: nat)
    requires steps != [] && n < |steps| - 1
    ensures LooksTooSoon(order, steps, n, i) <==> LooksTooSoon(order, steps[..|steps|-1], n, i)
  {
    if 0 <= n {
      assert steps[..|steps|-1][..n] == steps[..n];
    }
  }

  lemma {:induction false} RequestsStay(order: Order, steps: seq<Step>, n: nat)
    requires n <= |steps| && After(order, steps).Some? && After(order, steps[..n]).Some?
    ensures |After(order, steps[..n]).value.requests| <= |After(order, steps).value.requests|
    decreases |steps|
  {
    if n == |steps| {
      assert steps[..n] == steps;
    } else {
      assert steps[..|steps|-1][..n] == steps[..n];
      RequestsStay(order, steps[..|steps|-1], n);
      EveryRun(order, steps[..|steps|-1]);
      NextRequests(order, After(order, steps[..|steps|-1]).value, steps[|steps|-1]);
    }
  }

  /** A step adds a request, moves one on, or touches none. */
  lemma NextRequests(order: Order, s: State, step: Step)
    requires WriterFine(order, s) && Next(order, s, step).Some?
    ensures var t := Next(order, s, step).value;
      && |s.requests| <= |t.requests|
      && (forall i: nat :: |s.requests| <= i < |t.requests| ==> t.requests[i] == Asked)
      && (forall i: nat :: i < |s.requests| && step != Look(i) ==> t.requests[i] == s.requests[i])
  {
  }

  /** One look: it answers a failure without a reason exactly between the two writes. */
  lemma LookMissesReason(order: Order, s: State, i: nat)
    requires WriterFine(order, s) && ReasonFine(s) && i < |s.requests| && RequestFine(s, i) && Next(order, s, Look(i)).Some?
    ensures s.requests[i] != Failure(None)
    ensures Next(order, s, Look(i)).value.requests[i] == Failure(None) <==> s.requests[i] == SawBroken && s.writer == NoError
  {
  }

  /** Over all runs: a report request answers a failure without a reason exactly when it read the
      reason while the writer stood between its write of the status and its write of the reason. */
  lemma {:induction false} ReasonMissingIff(order: Order, steps: seq<Step>, i: nat)
    requires After(order, steps).Some? && i < |After(order, steps).value.requests|
    ensures After(order, steps).value.requests[i] == Failure(None) <==> exists n :: LooksTooSoon(order, steps, n, i)
    decreases |steps|
  {
    if steps == [] {
    } else {
      var k := |steps| - 1;
      var init, s := steps[..k], After(order, steps[..k]).value;
      EveryRun(order, init);
      ReasonAlwaysFine(order, init);
      NextRequests(order, s, steps[k]);
      forall n
        ensures LooksTooSoon(order, steps, n, i) <==>
          if n == k then steps[k] == Look(i) && i < |s.requests| && s.requests[i] == SawBroken && s.writer == NoError
          else LooksTooSoon(order, init, n, i)
      {
        if n < k {
          TooSoonBefore(order, steps, n, i);
        }
      }
      if i < |s.requests| {
        ReasonMissingIff(order, init, i);
        if steps[k] == Look(i) {
          assert RequestFine(s, i);
          LookMissesReason(order, s, i);
          assert LooksTooSoon(order, steps, k, i) <==> s.requests[i] == SawBroken && s.writer == NoError;
        }
      } else {
        forall n
          ensures !LooksTooSoon(order, init, n, i)
        {
          NotYetAsked(order, init, n, i);
        }
      }
    }
  }

  lemma NotYetAsked(order: Order, steps: seq<Step>, n: int, i: nat)
    requires After(order, steps).Some? && i >= |After(order, steps).value.requests|
    ensures !LooksTooSoon(order, steps, n, i)
  {
    if 0 <= n < |steps| && After(order, steps[..n]).Some? {
      RequestsStay(order, steps, n);
    }
  }

  /** A report request made after the run has ended always gets the reason of a failure. */
  lemma LateRequestGetsReason(order: Order, steps: seq<Step>, n: nat, i: nat)
    requires n <= |steps| && After(order, steps).Some? && After(order, steps[..n]).Some?
    requires After(order, steps[..n]).value.writer == Ended
    requires |After(order, steps[..n]).value.requests| <= i < |After(order, steps).value.requests|
    ensures After(order, steps).value.requests[i] != Failure(None)
  {
    ReasonMissingIff(order, steps, i);
    forall m
      ensures !LooksTooSoon(order, steps, m, i)
    {
      if n <= m < |steps| && After(order, steps[..m]).Some? {
        assert steps[..m][..n] == steps[..n];
        LateRun(order, steps[..m], n, |After(order, steps[..n]).value.streams|);
      } else if 0 <= m < n && After(order, steps[..m]).Some? {
        assert steps[..n][..m] == steps[..m];
        RequestsStay(order, steps[..n], m);
      }
    }
  }

  lemma FailedAtOnce() returns (steps: seq<Step>, s: State)
    ensures After(SOURCE, steps) == Some(s) && s == State([CONNECTION], Running, false, None, Raised, [], [])
  {
    steps, s := OneMoreStep(SOURCE, [], START, Announce);
    steps, s := OneMoreStep(SOURCE, steps, s, Raise);
  }

  /** Such a request exists: a run of the source in which the failure is seen without its reason. */
  lemma FailureWithoutReason() returns (steps: seq<Step>)
    ensures After(SOURCE, steps).Some? && After(SOURCE, steps).value.requests == [Failure(None)]
  {
    var s: State;
    steps, s := FailedAtOnce();
    steps, s := OneMoreStep(SOURCE, steps, s, Write);
    steps, s := OneMoreStep(SOURCE, steps, s, Ask);
    steps, s := OneMoreStep(SOURCE, steps, s, Look(0));
    steps, s := OneMoreStep(SOURCE, steps, s, Look(0));
    steps, s := OneMoreStep(SOURCE, steps, s, Look(0));
  }
}
