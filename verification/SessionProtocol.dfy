/** One analysis and everyone who watches it: the writer `run_analysis`, any number of event
    streams (`event_generator`) and report requests, as interleaved atomic steps over one shared
    session. */
module SessionProtocol {
  import opened Traces
  import opened Wrappers

  /** `Node(i)` is the stage of the graph node at place `i` of `_NODE_ORDER`. */
  datatype Stage = Connection | Node(place: nat) | Completed | Failed

  datatype Event = Event(stage: Stage, progress: int)

  const NODES: nat := 10

  /** `int(10 + (idx + 1) / total * 85)`; none of the ten values is near a rounding boundary. */
  function Progress(place: nat): int {
    10 + 85 * (place + 1) / 10
  }

  function NodeEvent(place: nat): Event {
    Event(Node(place), Progress(place))
  }

  const CONNECTION := Event(Connection, 5)
  const COMPLETED := Event(Completed, 100)
  const FAILED := Event(Failed, 100)

  predicate Terminal(e: Event) {
    e == COMPLETED || e == FAILED
  }

  datatype Status = Running | Done | Broken

  /** Where the writer is. `AtNode(n)` has announced `n` nodes; the states after `Reported` are
      those between the single writes to the session, in one order or the other. */
  datatype Writer =
    | Fresh | AtNode(n: nat) | Reported | HalfDone | Announced
    | Raised | HalfBroken | NoError | Ended

  /** An event stream. `Ready` is at the top of its loop; `sawEnd` is what it knows of the
      status when it reads the status before draining. */
  datatype Phase = Ready | Draining(sawEnd: bool) | Checking | Closed | Gone

  datatype Stream = Stream(sent: seq<Event>, phase: Phase)

  /** A report request, between its looks at the session, and what it answers. */
  datatype Request = Asked | NotRunning | SawBroken | NotBroken | InProgress | Failure(error: Option<string>) | Report | AssertionFails

  datatype State = State(events: seq<Event>, status: Status, report: bool, error: Option<string>, writer: Writer,
                         streams: seq<Stream>, requests: seq<Request>)

  const START := State([], Running, false, None, Fresh, [], [])

  datatype Step =
    | Announce              // the next progress event
    | SetReport             // session.report = report
    | Write                 // the first of the two writes that end the analysis
    | WriteNext             // the second
    | Saved | SaveRaises    // _save_snapshot
    | Raise                 // an exception out of the analysis
    | SetError(error: string)
    | Connect | Disconnect(i: nat) | Stream(i: nat)
    | Ask | Look(i: nat)

  /** The order of writes and of reads. The source sets the status before it emits the terminal
      event and drains before it reads the status: `Order(false, false)`. */
  datatype Order = Order(emitFirst: bool, statusFirst: bool)

  function WriterNext(order: Order, s: State, step: Step): Option<State> {
    match step
    case Announce =>
      if s.writer == Fresh then Some(s.(events := s.events + [CONNECTION], writer := AtNode(0)))
      else if s.writer.AtNode? && s.writer.n < NODES then
        Some(s.(events := s.events + [NodeEvent(s.writer.n)], writer := AtNode(s.writer.n + 1)))
      else None
    case SetReport => if s.writer == AtNode(NODES) then Some(s.(report := true, writer := Reported)) else None
    case Write =>
      if s.writer == Reported then
        Some(if order.emitFirst then s.(events := s.events + [COMPLETED], writer := HalfDone)
             else s.(status := Done, writer := HalfDone))
      else if s.writer == Raised then
        Some(if order.emitFirst then s.(events := s.events + [FAILED], writer := HalfBroken)
             else s.(status := Broken, writer := NoError))
      else None
    case WriteNext =>
      if s.writer == HalfDone then
        Some(if order.emitFirst then s.(status := Done, writer := Announced)
             else s.(events := s.events + [COMPLETED], writer := Announced))
      else if s.writer == HalfBroken then
        Some(if order.emitFirst then s.(status := Broken, writer := NoError)
             else s.(events := s.events + [FAILED], writer := Ended))
      else None
    case SetError(error) =>
      if s.writer == NoError then Some(s.(error := Some(error), writer := if order.emitFirst then Ended else HalfBroken)) else None
    case Saved => if s.writer == Announced then Some(s.(writer := Ended)) else None
    case SaveRaises => if s.writer == Announced then Some(s.(writer := Raised)) else None
    case Raise => if s.writer.AtNode? then Some(s.(writer := Raised)) else None
    case _ => None
  }

  function StreamNext(order: Order, s: State, r: Stream): Option<Stream> {
    match r.phase
    case Ready =>
      Some(r.(phase := Draining(order.statusFirst && s.status != Running)))
    case Draining(sawEnd) =>
      if |r.sent| < |s.events| then Some(r.(sent := r.sent + [s.events[|r.sent|]]))
      else Some(r.(phase := if order.statusFirst then (if sawEnd then Closed else Ready) else Checking))
    case Checking => Some(r.(phase := if s.status != Running then Closed else Ready))
    case _ => None
  }

  function RequestNext(s: State, q: Request): Option<Request> {
    match q
    case Asked => Some(if s.status == Running then InProgress else NotRunning)
    case NotRunning => Some(if s.status == Broken then SawBroken else NotBroken)
    case SawBroken => Some(Failure(s.error))
    case NotBroken => Some(if s.report then Report else AssertionFails)
    case _ => None
  }

  function Next(order: Order, s: State, step: Step): Option<State> {
    match step
    case Connect => Some(s.(streams := s.streams + [Stream.Stream([], Ready)]))
    case Disconnect(i) =>
      if i < |s.streams| && s.streams[i].phase != Closed then Some(s.(streams := s.streams[i := s.streams[i].(phase := Gone)])) else None
    case Stream(i) =>
      if i < |s.streams| then
        (match StreamNext(order, s, s.streams[i])
         case None => None
         case Some(r) => Some(s.(streams := s.streams[i := r])))
      else None
    case Ask => Some(s.(requests := s.requests + [Asked]))
    case Look(i) =>
      if i < |s.requests| then
        (match RequestNext(s, s.requests[i])
         case None => None
         case Some(q) => Some(s.(requests := s.requests[i := q])))
      else None
    case _ => WriterNext(order, s, step)
  }

  function Stepper(order: Order): (State, Step) -> Option<State> {
    (s: State, step: Step) => Next(order, s, step)
  }

  function After(order: Order, steps: seq<Step>): Option<State> {
    Run(Stepper(order), START, steps)
  }

  // ---------------------------------------------------------------- the invariant

  /** The events announced before the end. */
  function Opening(n: nat): seq<Event> {
    [CONNECTION] + seq(n, i requires i >= 0 => NodeEvent(i))
  }

  function Ending(done: bool, broken: bool): seq<Event> {
    (if done then [COMPLETED] else []) + (if broken then [FAILED] else [])
  }

  /** The log is an opening, all of it before a completion, perhaps followed by the completion,
      perhaps by the failure. */
  ghost predicate Log(events: seq<Event>, done: bool, broken: bool) {
    exists n: nat :: n <= NODES && (done ==> n == NODES) && LogOf(events, n, done, broken)
  }

  ghost predicate LogOf(events: seq<Event>, n: nat, done: bool, broken: bool) {
    events == Opening(n) + Ending(done, broken)
  }

  ghost predicate EitherLog(events: seq<Event>, broken: bool) {
    Log(events, false, broken) || Log(events, true, broken)
  }

  /** What the writer has written, by where it is. */
  ghost predicate WriterFine(order: Order, s: State) {
    match s.writer
    case Fresh => s.events == [] && s.status == Running
    case AtNode(n) => n <= NODES && LogOf(s.events, n, false, false) && s.status == Running
    case Reported => LogOf(s.events, NODES, false, false) && s.status == Running && s.report
    case HalfDone =>
      s.report && LogOf(s.events, NODES, order.emitFirst, false) && s.status == if order.emitFirst then Running else Done
    case Announced => s.report && Log(s.events, true, false) && s.status == Done
    case Raised => Interrupted(s, false)
    case HalfBroken => if order.emitFirst then Interrupted(s, true) else s.status == Broken && EitherLog(s.events, false)
    case NoError => s.status == Broken && EitherLog(s.events, order.emitFirst)
    case Ended =>
      || (s.status == Done && s.report && Log(s.events, true, false))
      || (s.status == Broken && EitherLog(s.events, true))
  }

  /** Before a failing analysis has changed the status: it fails while running, or a failed
      snapshot makes it fail after it was completed. */
  ghost predicate Interrupted(s: State, announced: bool) {
    || (s.status == Running && Log(s.events, false, announced))
    || (s.status == Done && s.report && Log(s.events, true, announced))
  }

  ghost predicate HasEnd(events: seq<Event>) {
    exists i :: 0 <= i < |events| && Terminal(events[i])
  }

  ghost predicate StreamFine(order: Order, s: State, i: int) {
    0 <= i < |s.streams| ==>
      var r := s.streams[i];
      && r.sent <= s.events
      && (order.emitFirst && order.statusFirst && r.phase == Closed ==> HasEnd(r.sent))
      && (r.phase.Draining? && r.phase.sawEnd ==> s.status != Running)
      && (r.phase == Checking ==> !order.statusFirst)
      && (r.phase == Closed ==> s.status != Running)
  }

  ghost predicate RequestFine(s: State, i: int) {
    0 <= i < |s.requests| ==>
      && (s.requests[i] == NotRunning ==> s.status != Running)
      && (s.requests[i] == SawBroken ==> s.status == Broken)
      && (s.requests[i] == NotBroken ==> s.report)
      && s.requests[i] != AssertionFails
  }

  ghost predicate Inv(order: Order, s: State) {
    && WriterFine(order, s)
    && (forall i :: StreamFine(order, s, i))
    && (forall i :: RequestFine(s, i))
  }

  // ---------------------------------------------------------------- every step keeps it

  lemma LogGrows(events: seq<Event>, n: nat)
    requires n <= NODES && LogOf(events, n, false, false)
    ensures n < NODES ==> LogOf(events + [NodeEvent(n)], n + 1, false, false)
    ensures n == NODES ==> LogOf(events + [COMPLETED], n, true, false)
  {
    assert Opening(n) + [NodeEvent(n)] == Opening(n + 1);
  }

  lemma LogBreaks(events: seq<Event>, done: bool)
    requires Log(events, done, false)
    ensures Log(events + [FAILED], done, true)
  {
    var n: nat :| n <= NODES && (done ==> n == NODES) && LogOf(events, n, done, false);
    assert Ending(done, true) == Ending(done, false) + [FAILED];
    assert LogOf(events + [FAILED], n, done, true);
  }

  lemma WriterKeeps(order: Order, s: State, step: Step)
    requires WriterFine(order, s) && WriterNext(order, s, step).Some?
    ensures WriterFine(order, WriterNext(order, s, step).value)
  {
    var t := WriterNext(order, s, step).value;
    match step {
      case Announce =>
        if s.writer.AtNode? {
          LogGrows(s.events, s.writer.n);
        } else {
          assert Opening(0) == [CONNECTION];
        }
      case Write =>
        if s.writer == Reported {
          LogGrows(s.events, NODES);
        } else {
          BreakEither(s.events);
        }
      case WriteNext =>
        if s.writer == HalfDone {
          if order.emitFirst {
            assert Log(s.events, true, false);
          } else {
            LogGrows(s.events, NODES);
            assert Log(t.events, true, false);
          }
        } else {
          BreakEither(s.events);
        }
      case Raise =>
        assert Log(s.events, false, false);
      case _ =>
    }
  }

  lemma BreakEither(events: seq<Event>)
    ensures forall done :: Log(events, done, false) ==> Log(events + [FAILED], done, true)
  {
    forall done | Log(events, done, false)
      ensures Log(events + [FAILED], done, true)
    {
      LogBreaks(events, done);
    }
  }

  lemma LogHasEnd(events: seq<Event>, done: bool, broken: bool)
    requires Log(events, done, broken) && (done || broken)
    ensures HasEnd(events)
  {
    var n: nat :| n <= NODES && (done ==> n == NODES) && LogOf(events, n, done, broken);
    assert events[|Opening(n)|] == Ending(done, broken)[0];
  }

  /** Completed means there is a report; and if terminal events are emitted first, an ended
      analysis has one in its log. */
  lemma EndIsBacked(order: Order, s: State)
    requires WriterFine(order, s)
    ensures s.status == Done ==> s.report
    ensures order.emitFirst && s.status != Running ==> HasEnd(s.events)
  {
    forall done, broken | Log(s.events, done, broken) && (done || broken)
      ensures HasEnd(s.events)
    {
      LogHasEnd(s.events, done, broken);
    }
    if s.writer == HalfDone && order.emitFirst {
      assert Log(s.events, true, false);
    }
  }

  /** The writer only appends, never unsets the report, never goes back to running, and never
      takes a failure back. */
  ghost predicate Onward(s: State, t: State) {
    && s.events <= t.events && (s.report ==> t.report)
    && (s.status != Running ==> t.status != Running) && (s.status == Broken ==> t.status == Broken)
  }

  lemma WriterOnward(order: Order, s: State, step: Step)
    requires WriterFine(order, s) && WriterNext(order, s, step).Some?
    ensures Onward(s, WriterNext(order, s, step).value)
    ensures WriterNext(order, s, step).value.streams == s.streams && WriterNext(order, s, step).value.requests == s.requests
  {
  }

  lemma StreamKeeps(order: Order, s: State, t: State, i: int)
    requires StreamFine(order, s, i) && Onward(s, t) && t.streams == s.streams
    ensures StreamFine(order, t, i)
  {
  }

  lemma StreamStepKeeps(order: Order, s: State, i: nat)
    requires WriterFine(order, s) && i < |s.streams| && StreamFine(order, s, i)
    requires StreamNext(order, s, s.streams[i]).Some?
    ensures StreamFine(order, s.(streams := s.streams[i := StreamNext(order, s, s.streams[i]).value]), i)
  {
    EndIsBacked(order, s);
    var r := s.streams[i];
    if |r.sent| == |s.events| {
      assert r.sent == s.events;
    }
  }

  lemma RequestStepKeeps(order: Order, s: State, i: nat)
    requires WriterFine(order, s) && i < |s.requests| && RequestFine(s, i)
    requires RequestNext(s, s.requests[i]).Some?
    ensures RequestFine(s.(requests := s.requests[i := RequestNext(s, s.requests[i]).value]), i)
  {
    EndIsBacked(order, s);
  }

  lemma NextKeeps(order: Order, s: State, step: Step)
    requires Inv(order, s) && Next(order, s, step).Some?
    ensures Inv(order, Next(order, s, step).value)
  {
    var t := Next(order, s, step).value;
    NextWriter(order, s, step);
    forall i
      ensures StreamFine(order, t, i)
    {
      NextStream(order, s, step, i);
    }
    forall i
      ensures RequestFine(t, i)
    {
      NextRequest(order, s, step, i);
    }
  }

  lemma NextWriter(order: Order, s: State, step: Step)
    requires Inv(order, s) && Next(order, s, step).Some?
    ensures WriterFine(order, Next(order, s, step).value) && Onward(s, Next(order, s, step).value)
  {
    match step {
      case Connect => case Disconnect(i) => case Stream(i) => case Ask => case Look(i) =>
      case _ =>
        WriterKeeps(order, s, step);
        WriterOnward(order, s, step);
    }
  }

  lemma NextStream(order: Order, s: State, step: Step, i: int)
    requires Inv(order, s) && Next(order, s, step).Some?
    ensures StreamFine(order, Next(order, s, step).value, i)
  {
    assert StreamFine(order, s, i);
    match step {
      case Connect => case Disconnect(j) => case Ask => case Look(j) =>
      case Stream(j) =>
        if i == j {
          StreamStepKeeps(order, s, j);
        }
      case _ =>
        WriterOnward(order, s, step);
        StreamKeeps(order, s, Next(order, s, step).value, i);
    }
  }

  lemma NextRequest(order: Order, s: State, step: Step, i: int)
    requires Inv(order, s) && Next(order, s, step).Some?
    ensures RequestFine(Next(order, s, step).value, i)
  {
    assert RequestFine(s, i);
    match step {
      case Connect => case Disconnect(j) => case Ask => case Stream(j) =>
      case Look(j) =>
        if i == j {
          RequestStepKeeps(order, s, j);
        }
      case _ =>
        WriterOnward(order, s, step);
    }
  }

  lemma {:induction false} EveryRun(order: Order, steps: seq<Step>)
    requires After(order, steps).Some?
    ensures Inv(order, After(order, steps).value)
  {
    if steps == [] {
    } else {
      EveryRun(order, steps[..|steps|-1]);
      NextKeeps(order, After(order, steps[..|steps|-1]).value, steps[|steps|-1]);
    }
  }
}
