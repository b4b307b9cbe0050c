/** The client that many threads call and one background loop serves: `RealMCPClient`'s
    constructor, `_loop_main`, `_call_kubectl` and `close`, as interleaved atomic steps. Time is
    a step that may happen at any moment. */
module RequestQueue {
  import opened GoQuote
  import opened KubectlReply
  import opened Text
  import opened Traces
  import opened Wrappers

  /** What a tool call came back with: text, flagged as an error or not, or an exception (a
      timeout, a broken transport). */
  datatype ToolReply = ToolText(text: string, isError: bool) | ToolRaised

  /** What a future is resolved with. */
  datatype Answer = Parsed(outcome: Outcome) | ToolError(text: string) | CallRaised

  function Interpret(reply: ToolReply, wantJson: bool): Answer {
    match reply
    case ToolRaised => CallRaised
    case ToolText(text, isError) =>
      if isError then ToolError(text[..if |text| < 300 then |text| else 300]) else Parsed(ParseReply(text, wantJson))
  }

  datatype Item = Call(args: seq<string>, wantJson: bool) | Sentinel

  /** A future, with the tool call that resolved it. */
  datatype Future = Pending | Resolved(command: string, reply: ToolReply, answer: Answer)

  datatype Caller = Waiting | Got(answer: Answer) | GaveUp

  /** An item put on the queue, its future and the thread waiting for it. */
  datatype Slot = Slot(item: Item, future: Future, caller: Caller)

  datatype Loop = Connecting | Connected | Failing | Idle | Serving | Stopped

  datatype Construction = Starting | Woken | Returned | RaisedTimeout | RaisedError

  /** `slots` is everything ever put on the queue, `taken` how much of it the loop has taken;
      `resolutions` lists the slots in the order their futures were resolved. */
  datatype State = State(slots: seq<Slot>, taken: nat, resolutions: seq<nat>, loop: Loop,
                         initialised: bool, ready: bool, connectError: bool, construction: Construction)

  const START := State([], 0, [], Connecting, false, false, false, Starting)

  datatype Step =
    | Initialised            // session.initialize() returns
    | SetReady               // _ready.set() after it
    | ConnectFails           // an exception before _ready is set: _connect_error = exc
    | SetReadyFailed         // then _ready.set(), and the thread ends
    | Dies                   // the loop ends otherwise: an exception once ready, or no Exception at all
    | Wake | WaitTimesOut    // the two ends of _ready.wait in the constructor
    | CheckError             // the constructor looks at _connect_error
    | PutCall(args: seq<string>, wantJson: bool)
    | PutClose
    | Take                   // _request_q.get
    | Finish(reply: ToolReply)
    | Collect(i: nat) | GiveUp(i: nat)

  function Next(s: State, step: Step): Option<State> {
    match step
    case Initialised => if s.loop == Connecting then Some(s.(loop := Connected, initialised := true)) else None
    case SetReady => if s.loop == Connected then Some(s.(loop := Idle, ready := true)) else None
    case ConnectFails =>
      if (s.loop == Connecting || s.loop == Connected) && !s.ready then Some(s.(loop := Failing, connectError := true)) else None
    case SetReadyFailed => if s.loop == Failing then Some(s.(loop := Stopped, ready := true)) else None
    case Dies => if s.loop != Stopped then Some(s.(loop := Stopped)) else None
    case Wake => if s.construction == Starting && s.ready then Some(s.(construction := Woken)) else None
    case WaitTimesOut => if s.construction == Starting && !s.ready then Some(s.(construction := RaisedTimeout)) else None
    case CheckError =>
      if s.construction == Woken then Some(s.(construction := if s.connectError then RaisedError else Returned)) else None
    case PutCall(args, wantJson) =>
      if s.construction == Returned then Some(s.(slots := s.slots + [Slot(Call(args, wantJson), Pending, Waiting)])) else None
    case PutClose =>
      if s.construction == Returned then Some(s.(slots := s.slots + [Slot(Sentinel, Pending, GaveUp)])) else None
    case Take =>
      if s.loop == Idle && s.taken < |s.slots|
      then Some(s.(taken := s.taken + 1, loop := if s.slots[s.taken].item == Sentinel then Stopped else Serving))
      else None
    case Finish(reply) =>
      if s.loop == Serving && 0 < s.taken <= |s.slots| && s.slots[s.taken - 1].item.Call? then
        var i := s.taken - 1;
        var item := s.slots[i].item;
        var done := Resolved(CommandFor(item.args), reply, Interpret(reply, item.wantJson));
        Some(s.(slots := s.slots[i := s.slots[i].(future := done)], loop := Idle, resolutions := s.resolutions + [i]))
      else None
    case Collect(i) =>
      if i < |s.slots| && s.slots[i].caller == Waiting && s.slots[i].future.Resolved?
      then Some(s.(slots := s.slots[i := s.slots[i].(caller := Got(s.slots[i].future.answer))]))
      else None
    case GiveUp(i) =>
      if i < |s.slots| && s.slots[i].caller == Waiting && s.slots[i].future.Pending?
      then Some(s.(slots := s.slots[i := s.slots[i].(caller := GaveUp)]))
      else None
  }

  function After(steps: seq<Step>): Option<State> {
    Run(Next, START, steps)
  }

  // ---------------------------------------------------------------- the invariant

  /** The future was resolved by the call for its own arguments, with what that call came to. */
  ghost predicate OwnAnswer(slot: Slot) {
    slot.item.Call? && slot.future.Resolved?
    && slot.future.command == CommandFor(slot.item.args)
    && slot.future.answer == Interpret(slot.future.reply, slot.item.wantJson)
  }

  /** What holds of slot `i`. A resolved future holds the outcome of its own arguments; a caller
      that got something got its own future's answer; what the loop has taken is resolved,
      except perhaps the last item; what it has not taken is pending. */
  ghost predicate SlotFine(s: State, i: int) {
    0 <= i < |s.slots| ==>
      var slot := s.slots[i];
      && (slot.future.Resolved? ==> slot.item.Call? && i < s.taken && OwnAnswer(slot))
      && (slot.caller.Got? ==> slot.future.Resolved? && slot.caller.answer == slot.future.answer)
      && (i < s.taken - 1 ==> slot.item.Call? && slot.future.Resolved?)
      && (i == s.taken - 1 && s.loop == Idle ==> slot.item.Call? && slot.future.Resolved?)
      && (i == s.taken - 1 && s.loop == Serving ==> slot.item.Call? && slot.future.Pending?)
  }

  /** Resolution `j` is of a slot taken, resolved, and later than that of resolution `j - 1`. */
  ghost predicate InTurn(s: State, j: int) {
    0 <= j < |s.resolutions| ==>
      && s.resolutions[j] < s.taken && (j > 0 ==> s.resolutions[j - 1] < s.resolutions[j])
  }

  ghost predicate Logged(s: State, i: int) {
    0 <= i < |s.slots| && s.slots[i].future.Resolved? ==> i in s.resolutions
  }

  ghost predicate LoopFine(s: State) {
    && s.taken <= |s.slots|
    && (s.loop == Serving ==> s.taken > 0)
    && (s.loop == Serving && s.resolutions != [] ==> s.resolutions[|s.resolutions|-1] < s.taken - 1)
    && (s.ready && !s.connectError ==> s.initialised)
    && (s.loop in {Idle, Serving} ==> s.ready && !s.connectError)
    && (s.loop in {Connecting, Connected} ==> !s.ready && !s.connectError)
    && (s.loop == Connected ==> s.initialised)
    && (s.loop == Failing ==> !s.ready && s.connectError)
    && (s.construction == Woken ==> s.ready)
    && (s.construction == Returned ==> s.ready && !s.connectError)
    && (s.slots != [] ==> s.construction == Returned)
  }

  ghost predicate Inv(s: State) {
    && LoopFine(s)
    && (forall i :: SlotFine(s, i))
    && (forall j :: InTurn(s, j))
    && (forall i :: Logged(s, i))
  }

  lemma NextKeepsLoop(s: State, step: Step)
    requires Inv(s) && Next(s, step).Some?
    ensures LoopFine(Next(s, step).value)
  {
    if s.resolutions != [] {
      assert InTurn(s, |s.resolutions| - 1);
    }
  }

  lemma NextKeepsSlot(s: State, step: Step, i: int)
    requires Inv(s) && Next(s, step).Some?
    ensures SlotFine(Next(s, step).value, i)
  {
    assert SlotFine(s, i) && SlotFine(s, s.taken - 1);
  }

  lemma NextKeepsTurn(s: State, step: Step, j: int)
    requires Inv(s) && Next(s, step).Some?
    ensures InTurn(Next(s, step).value, j)
  {
    assert InTurn(s, j);
    if step.Finish? && s.resolutions != [] {
      assert InTurn(s, |s.resolutions| - 1);
    }
  }

  lemma NextKeepsLog(s: State, step: Step, i: int)
    requires Inv(s) && Next(s, step).Some?
    ensures Logged(Next(s, step).value, i)
  {
    assert Logged(s, i) && SlotFine(s, i);
  }

  lemma NextKeeps(s: State, step: Step)
    requires Inv(s) && Next(s, step).Some?
    ensures Inv(Next(s, step).value)
  {
    NextKeepsLoop(s, step);
    forall i
      ensures SlotFine(Next(s, step).value, i)
    {
      NextKeepsSlot(s, step, i);
    }
    forall i
      ensures InTurn(Next(s, step).value, i) && Logged(Next(s, step).value, i)
    {
      NextKeepsTurn(s, step, i);
      NextKeepsLog(s, step, i);
    }
  }

  /** The invariant holds after every run: any number of callers, timeouts, failures of the
      loop and closes, in any interleaving. */
  lemma {:induction false} EveryRun(steps: seq<Step>)
    requires After(steps).Some?
    ensures Inv(After(steps).value)
  {
    if steps == [] {
    } else {
      EveryRun(steps[..|steps|-1]);
      NextKeeps(After(steps[..|steps|-1]).value, steps[|steps|-1]);
    }
  }

  // ---------------------------------------------------------------- what no step undoes

  /** From `s` to a later `t`, slot `i` keeps its item, its resolution and its caller's end. */
  ghost predicate Kept(s: State, t: State, i: int) {
    0 <= i < |s.slots| ==>
      && i < |t.slots| && t.slots[i].item == s.slots[i].item
      && (s.slots[i].future.Resolved? ==> t.slots[i].future == s.slots[i].future)
      && (s.slots[i].caller != Waiting ==> t.slots[i].caller == s.slots[i].caller)
  }

  lemma NextKeepsPast(s: State, step: Step, i: int)
    requires Inv(s) && Next(s, step).Some?
    ensures Kept(s, Next(s, step).value, i) && s.resolutions <= Next(s, step).value.resolutions
  {
    assert SlotFine(s, s.taken - 1);
  }

  /** Whatever happens later, a future is never resolved again, a caller's answer or timeout is
      final, and nothing on the queue changes. */
  lemma {:induction false} PastIsKept(steps: seq<Step>, n: nat, i: int)
    requires n <= |steps| && After(steps).Some?
    ensures After(steps[..n]).Some?
    ensures Kept(After(steps[..n]).value, After(steps).value, i)
    ensures After(steps[..n]).value.resolutions <= After(steps).value.resolutions
    decreases |steps|
  {
    if n == |steps| {
      assert steps[..n] == steps;
    } else {
      var init := steps[..|steps|-1];
      assert init[..n] == steps[..n];
      PastIsKept(init, n, i);
      EveryRun(init);
      NextKeepsPast(After(init).value, steps[|steps|-1], i);
      KeptTransitive(After(steps[..n]).value, After(init).value, After(steps).value, i);
    }
  }

  lemma KeptTransitive(s: State, t: State, u: State, i: int)
    requires Kept(s, t, i) && Kept(t, u, i)
    ensures Kept(s, u, i)
  {
  }

  // ---------------------------------------------------------------- what every run guarantees

  /** Some run, with any number of callers and in any interleaving, leads to `s`. */
  ghost predicate Reachable(s: State) {
    exists steps :: After(steps) == Some(s)
  }

  lemma ReachableInv(s: State)
    requires Reachable(s)
    ensures Inv(s)
  {
    var steps :| After(steps) == Some(s);
    EveryRun(steps);
  }

  /** An answer belongs to the caller's own arguments: it was computed from the reply to the
      command made of exactly these arguments. A late answer reaches nobody else. */
  lemma AnswersAreOwn(s: State, i: nat)
    requires Reachable(s) && i < |s.slots|
    ensures s.slots[i].future.Resolved? ==> OwnAnswer(s.slots[i])
    ensures s.slots[i].caller.Got? ==> s.slots[i].future.Resolved? && s.slots[i].caller.answer == s.slots[i].future.answer
  {
    ReachableInv(s);
    assert SlotFine(s, i);
  }

  /** First in, first out: before a request is answered, all earlier ones have been; and the
      resolutions name each answered slot exactly once, in queue order. */
  lemma FirstInFirstOut(s: State)
    requires Reachable(s)
    ensures forall i, j :: 0 <= i < j < |s.slots| && s.slots[j].future.Resolved? ==> s.slots[i].item.Call? && s.slots[i].future.Resolved?
    ensures forall a, b :: 0 <= a < b < |s.resolutions| ==> s.resolutions[a] < s.resolutions[b]
    ensures forall i :: 0 <= i < |s.slots| && s.slots[i].future.Resolved? ==> i in s.resolutions
  {
    ReachableInv(s);
    forall i, j | 0 <= i < j < |s.slots| && s.slots[j].future.Resolved?
      ensures s.slots[i].item.Call? && s.slots[i].future.Resolved?
    {
      assert SlotFine(s, i) && SlotFine(s, j);
    }
    forall a, b | 0 <= a < b < |s.resolutions|
      ensures s.resolutions[a] < s.resolutions[b]
    {
      ResolutionsClimb(s, a, b);
    }
    forall i | 0 <= i < |s.slots| && s.slots[i].future.Resolved?
      ensures i in s.resolutions
    {
      assert Logged(s, i);
    }
  }

  lemma {:induction false} ResolutionsClimb(s: State, a: nat, b: nat)
    requires Inv(s) && a < b < |s.resolutions|
    ensures s.resolutions[a] < s.resolutions[b]
    decreases b
  {
    assert InTurn(s, b);
    if a < b - 1 {
      ResolutionsClimb(s, a, b - 1);
    }
  }

  /** Nothing put behind the close signal is ever served. */
  lemma NothingBehindSentinel(s: State, closed: nat, i: nat)
    requires Reachable(s) && closed < i < |s.slots| && s.slots[closed].item == Sentinel
    ensures s.slots[i].future == Pending && !s.slots[i].caller.Got?
  {
    ReachableInv(s);
    assert SlotFine(s, closed) && SlotFine(s, i);
  }

  /** The constructor returns only after the session was initialised, and nothing is queued
      before it returns. */
  lemma ReturnsInitialised(s: State)
    requires Reachable(s)
    ensures s.construction == Returned ==> s.initialised
    ensures s.slots != [] ==> s.construction == Returned
  {
    ReachableInv(s);
  }

  /** From queue to parser: a caller that got an answer to a printed reply got exactly the
      standard output, or exactly the stripped error, of its own command. */
  lemma CallerGetsOwnOutput(s: State, i: nat, printable: char -> bool, error: string, stdout: string, tail: string)
    requires Reachable(s) && i < |s.slots| && s.slots[i].caller.Got? && s.slots[i].future.Resolved?
    requires GoPrintable(printable) && AllShared(printable, error) && AllShared(printable, stdout)
    requires s.slots[i].future.reply == ToolText(Render(printable, s.slots[i].future.command, error, stdout, tail), false)
    ensures s.slots[i].item.Call?
    ensures s.slots[i].caller.answer == Parsed(
      if !Blank(error) then KubectlFailed(Strip(error))
      else if !s.slots[i].item.wantJson then Plain(stdout)
      else if Blank(stdout) then EmptyObject
      else Document(stdout))
  {
    AnswersAreOwn(s, i);
    RoundTrip(printable, s.slots[i].item.args, error, stdout, tail, s.slots[i].item.wantJson);
  }
}
