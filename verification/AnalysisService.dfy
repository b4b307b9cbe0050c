/** The session object and `run_analysis` as it runs on its own thread, write by write: a run of
    the writer of SessionProtocol. */
module AnalysisService {
  import opened SessionGuarantees
  import opened SessionProtocol
  import opened Wrappers

  class AnalysisSession {
    var status: Status
    var events: seq<Event>
    var report: bool
    var error: Option<string>

    constructor ()
      ensures status == Running && events == [] && !report && error == None
    {
      status, events, report, error := Running, [], false, None;
    }

    /** `emit`: appends, and touches nothing else. */
    method Emit(stage: Stage, progress: int)
      modifies this`events
      ensures events == old(events) + [Event(stage, progress)]
    {
      events := events + [Event(stage, progress)];
    }

    /** The session as the state machine sees it, with the writer at `writer`. */
    ghost function View(writer: Writer): State
      reads this
    {
      State(events, status, report, error, writer, [], [])
    }
  }

  /** How the analysis goes: it raises after some nodes, it cannot save its snapshot, or neither. */
  datatype World = FailsAfter(nodes: nat, reason: string) | SnapshotFails(reason: string) | Succeeds

  /** `run_analysis`. Its writes, in the order in which it makes them, are a run of the writer,
      so everything proved of all runs holds at each of them; and it says how the session ends. */
  method RunAnalysis(session: AnalysisSession, world: World) returns (ghost steps: seq<Step>)
    requires session.View(Fresh) == START
    requires world.FailsAfter? ==> world.nodes <= NODES
    modifies session
    ensures After(SOURCE, steps) == Some(session.View(Ended))
    ensures session.status == if world.Succeeds? then Done else Broken
    ensures session.report <==> !world.FailsAfter?
    ensures session.error == if world.Succeeds? then None else Some(world.reason)
    ensures session.events == Opening(if world.FailsAfter? then world.nodes else NODES) + Ending(!world.FailsAfter?, !world.Succeeds?)
  {
    ghost var s: State;
    steps, s := AnnounceNodes(session, if world.FailsAfter? then world.nodes else NODES);
    if world.FailsAfter? {
      steps, s := OneMoreStep(SOURCE, steps, s, Raise);
      steps := Fail(session, world.reason, steps, s);
    } else {
      steps, s := Complete(session, steps, s);
      if world.SnapshotFails? {
        steps, s := OneMoreStep(SOURCE, steps, s, SaveRaises);
        steps := Fail(session, world.reason, steps, s);
      } else {
        steps, s := OneMoreStep(SOURCE, steps, s, Saved);
      }
    }
    assert session.events == Opening(if world.FailsAfter? then world.nodes else NODES) + Ending(!world.FailsAfter?, !world.Succeeds?);
  }

  /** The connection event, then one event per node the graph gets through. */
  method AnnounceNodes(session: AnalysisSession, nodes: nat) returns (ghost steps: seq<Step>, ghost s: State)
    requires session.View(Fresh) == START && nodes <= NODES
    modifies session`events
    ensures s == session.View(AtNode(nodes)) && After(SOURCE, steps) == Some(s)
    ensures session.events == Opening(nodes)
  {
    session.Emit(Connection, 5);
    steps, s := OneMoreStep(SOURCE, [], START, Announce);
    assert session.events == Opening(0);
    for i := 0 to nodes
      invariant s == session.View(AtNode(i)) && After(SOURCE, steps) == Some(s)
      invariant session.events == Opening(i)
    {
      session.Emit(Node(i), Progress(i));
      assert Opening(i) + [NodeEvent(i)] == Opening(i + 1);
      steps, s := OneMoreStep(SOURCE, steps, s, Announce);
    }
  }

  /** The report, the status and the terminal event, in this order. */
  method Complete(session: AnalysisSession, ghost steps: seq<Step>, ghost s: State)
    returns (ghost more: seq<Step>, ghost t: State)
    requires After(SOURCE, steps) == Some(s) && s == session.View(AtNode(NODES))
    modifies session
    ensures After(SOURCE, more) == Some(t) && t == session.View(Announced)
    ensures session.status == Done && session.report && session.error == old(session.error)
    ensures session.events == old(session.events) + [COMPLETED]
  {
    session.report := true;
    more, t := OneMoreStep(SOURCE, steps, s, SetReport);
    session.status := Done;
    more, t := OneMoreStep(SOURCE, more, t, Write);
    session.Emit(Completed, 100);
    more, t := OneMoreStep(SOURCE, more, t, WriteNext);
  }

  /** The `except` branch: status, then error, then the terminal event. */
  method Fail(session: AnalysisSession, reason: string, ghost steps: seq<Step>, ghost s: State) returns (ghost more: seq<Step>)
    requires After(SOURCE, steps) == Some(s) && s == session.View(Raised)
    modifies session
    ensures After(SOURCE, more) == Some(session.View(Ended))
    ensures session.status == Broken && session.error == Some(reason) && session.report == old(session.report)
    ensures session.events == old(session.events) + [FAILED]
  {
    ghost var t: State;
    session.status := Broken;
    more, t := OneMoreStep(SOURCE, steps, s, Write);
    session.error := Some(reason);
    more, t := OneMoreStep(SOURCE, more, t, SetError(reason));
    session.Emit(Failed, 100);
    more, t := OneMoreStep(SOURCE, more, t, WriteNext);
  }
}
