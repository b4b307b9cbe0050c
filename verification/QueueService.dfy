/** That the queue keeps serving: what alone can stop the loop, that it works off whatever is
    queued, and how each constructor and each caller ends. */
module QueueService {
  import opened KubectlReply
  import opened RequestQueue
  import opened Text
  import opened Traces
  import opened Wrappers

  // ---------------------------------------------------------------- what stops the loop

  predicate TookSentinel(s: State) {
    0 < s.taken <= |s.slots| && s.slots[s.taken - 1].item == Sentinel
  }

  lemma StopNext(s: State, broken: bool, step: Step)
    requires s.taken <= |s.slots| && SlotFine(s, s.taken - 1) && (s.loop == Serving ==> s.taken > 0)
    requires (s.loop == Stopped <==> broken || TookSentinel(s)) && Next(s, step).Some?
    ensures Next(s, step).value.loop == Stopped <==>
      broken || step == Dies || step == SetReadyFailed || TookSentinel(Next(s, step).value)
  {
    if step.Take? {
      assert s.loop == Idle;
    } else if step.Finish? {
      assert s.loop == Serving;
    } else if step.Collect? || step.GiveUp? {
      assert Next(s, step).value.taken == s.taken;
    }
  }

  /** In every run the loop has stopped exactly when it died, failed to connect, or took the close
      signal; so a call that raises, times out or reports an error does not stop it. */
  lemma {:induction false} StopsIff(steps: seq<Step>)
    requires After(steps).Some?
    ensures After(steps).value.loop == Stopped <==> Dies in steps || SetReadyFailed in steps || TookSentinel(After(steps).value)
  {
    if steps == [] {
    } else {
      var k := |steps| - 1;
      var init := steps[..k];
      StopsIff(init);
      EveryRun(init);
      StopNext(After(init).value, Dies in init || SetReadyFailed in init, steps[k]);
      assert steps == init + [steps[k]];
    }
  }

  // ---------------------------------------------------------------- how construction ends

  ghost predicate ConstructionFine(s: State, steps: seq<Step>) {
    && (s.connectError <==> ConnectFails in steps)
    && (s.ready <==> SetReady in steps || SetReadyFailed in steps)
    && (s.construction == RaisedTimeout <==> WaitTimesOut in steps)
    && (s.construction == RaisedError <==> CheckError in steps && ConnectFails in steps)
    && (s.construction == Returned <==> CheckError in steps && ConnectFails !in steps)
    && (s.construction == Starting <==> Wake !in steps && WaitTimesOut !in steps)
  }

  lemma ConstructionNext(s: State, steps: seq<Step>, step: Step)
    requires Inv(s) && ConstructionFine(s, steps) && Next(s, step).Some?
    ensures ConstructionFine(Next(s, step).value, steps + [step])
  {
  }

  /** In every run: the constructor that has looked raises the connection's error exactly if the
      connection failed, and returns otherwise; it raises a timeout exactly if its wait ran out. */
  lemma {:induction false} ConstructionEnds(steps: seq<Step>)
    requires After(steps).Some?
    ensures ConstructionFine(After(steps).value, steps)
  {
    if steps == [] {
    } else {
      var k := |steps| - 1;
      ConstructionEnds(steps[..k]);
      EveryRun(steps[..k]);
      ConstructionNext(After(steps[..k]).value, steps[..k], steps[k]);
      assert steps == steps[..k] + [steps[k]];
    }
  }

  // ---------------------------------------------------------------- how a call ends

  ghost predicate CallerFine(s: State, steps: seq<Step>, i: nat) {
    && (i < |s.slots| && s.slots[i].item.Call? ==>
          && (s.slots[i].caller.Got? <==> Collect(i) in steps)
          && (s.slots[i].caller == GaveUp <==> GiveUp(i) in steps))
    && (i < |s.slots| && s.slots[i].item == Sentinel ==> s.slots[i].caller == GaveUp)
    && (Collect(i) in steps || GiveUp(i) in steps ==> i < |s.slots|)
  }

  lemma CallerNext(s: State, steps: seq<Step>, step: Step, i: nat)
    requires LoopFine(s) && SlotFine(s, i) && SlotFine(s, s.taken - 1) && CallerFine(s, steps, i) && Next(s, step).Some?
    ensures CallerFine(Next(s, step).value, steps + [step], i)
  {
  }

  lemma {:induction false} CallersEnd(steps: seq<Step>, i: nat)
    requires After(steps).Some?
    ensures CallerFine(After(steps).value, steps, i)
  {
    if steps == [] {
    } else {
      var k := |steps| - 1;
      CallersEnd(steps[..k], i);
      EveryRun(steps[..k]);
      CallerNext(After(steps[..k]).value, steps[..k], steps[k], i);
      assert steps == steps[..k] + [steps[k]];
    }
  }

  /** A caller is never stuck: while it waits it can take its answer, if there is one, and only
      then; and give up, if there is none. What it takes is its own future's answer. */
  lemma CallerHasStep(s: State, i: nat)
    requires i < |s.slots| && s.slots[i].caller == Waiting
    ensures Next(s, Collect(i)).Some? <==> s.slots[i].future.Resolved?
    ensures Next(s, GiveUp(i)).Some? <==> s.slots[i].future.Pending?
    ensures Next(s, Collect(i)).Some? ==> Next(s, Collect(i)).value.slots[i].caller == Got(s.slots[i].future.answer)
  {
  }

  /** What the callers have put on the queue, in order. */
  function Puts(steps: seq<Step>): seq<Item> {
    if steps == [] then []
    else
      Puts(steps[..|steps|-1])
      + match steps[|steps|-1]
        case PutCall(args, wantJson) => [Call(args, wantJson)]
        case PutClose => [Sentinel]
        case _ => []
  }

  ghost predicate Queued(s: State, items: seq<Item>) {
    |s.slots| == |items| && forall i :: 0 <= i < |items| ==> s.slots[i].item == items[i]
  }

  lemma PutNext(s: State, items: seq<Item>, step: Step)
    requires Queued(s, items) && Next(s, step).Some?
    ensures Queued(Next(s, step).value, items + match step
                                                case PutCall(args, wantJson) => [Call(args, wantJson)]
                                                case PutClose => [Sentinel]
                                                case _ => [])
  {
  }

  /** In every run the queue holds exactly what was put there, in order and unchanged, whether taken
      or not. */
  lemma {:induction false} QueueIsPuts(steps: seq<Step>)
    requires After(steps).Some?
    ensures Queued(After(steps).value, Puts(steps))
  {
    if steps == [] {
    } else {
      var k := |steps| - 1;
      QueueIsPuts(steps[..k]);
      PutNext(After(steps[..k]).value, Puts(steps[..k]), steps[k]);
    }
  }

  // ---------------------------------------------------------------- what the answers are

  /** A call that raised ends in an exception; one that reported an error in an error with the
      beginning of its text. */
  lemma FailedCall(s: State, i: nat)
    requires Reachable(s) && i < |s.slots| && s.slots[i].caller.Got?
    ensures s.slots[i].future.Resolved?
    ensures s.slots[i].future.reply.ToolRaised? <==> s.slots[i].caller.answer == CallRaised
    ensures s.slots[i].future.reply.ToolText? && s.slots[i].future.reply.isError ==>
      exists start :: start <= s.slots[i].future.reply.text && |start| <= 300
        && (|start| < 300 ==> start == s.slots[i].future.reply.text)
        && s.slots[i].caller.answer == ToolError(start)
  {
    AnswersAreOwn(s, i);
  }

  // ---------------------------------------------------------------- the backlog

  /** Taking and finishing, once per reply. */
  function Served(replies: seq<ToolReply>): seq<Step> {
    if replies == [] then [] else Served(replies[..|replies|-1]) + [Take, Finish(replies[|replies|-1])]
  }

  lemma {:induction false} ServedOnly(replies: seq<ToolReply>)
    ensures forall step :: step in Served(replies) ==> step == Take || step.Finish?
  {
    if replies == [] {
    } else {
      ServedOnly(replies[..|replies|-1]);
    }
  }

  /** The loop stands before slot `from + n` of a state that differs from `s` only in the answers to
      the slots from `from` on, which are those the replies amount to. */
  ghost predicate WorkedOff(s: State, t: State, replies: seq<ToolReply>) {
    && t.loop == Idle && t.taken == s.taken + |replies| && |t.slots| == |s.slots|
    && forall j :: AnsweredBy(s, t, replies, j)
  }

  ghost predicate AnsweredBy(s: State, t: State, replies: seq<ToolReply>, j: int) {
    0 <= j < |s.slots| && j < |t.slots| ==>
      && t.slots[j].item == s.slots[j].item && t.slots[j].caller == s.slots[j].caller
      && if s.taken <= j < s.taken + |replies|
         then t.slots[j].future.Resolved? && t.slots[j].future.reply == replies[j - s.taken]
         else t.slots[j].future == s.slots[j].future
  }

  lemma ServeOne(s: State, t: State, replies: seq<ToolReply>, reply: ToolReply) returns (u: State)
    requires WorkedOff(s, t, replies) && t.taken < |t.slots| && t.slots[t.taken].item.Call?
    ensures Next(t, Take).Some? && Next(Next(t, Take).value, Finish(reply)) == Some(u)
    ensures WorkedOff(s, u, replies + [reply])
  {
    u := Next(Next(t, Take).value, Finish(reply)).value;
    forall j
      ensures AnsweredBy(s, u, replies + [reply], j)
    {
      assert AnsweredBy(s, t, replies, j);
    }
  }

  lemma {:induction false} ServeAll(s: State, replies: seq<ToolReply>) returns (t: State)
    requires s.loop == Idle && s.taken + |replies| <= |s.slots|
    requires forall j :: s.taken <= j < s.taken + |replies| ==> s.slots[j].item.Call?
    ensures Run(Next, s, Served(replies)) == Some(t) && WorkedOff(s, t, replies)
    decreases |replies|
  {
    if replies == [] {
      t := s;
    } else {
      var n := |replies| - 1;
      var m := ServeAll(s, replies[..n]);
      assert AnsweredBy(s, m, replies[..n], m.taken);
      t := ServeOne(s, m, replies[..n], replies[n]);
      assert replies[..n] + [replies[n]] == replies;
      RunTwice(s, Served(replies[..n]), m, Take, Finish(replies[n]));
    }
  }

  lemma RunTwice(s: State, steps: seq<Step>, m: State, a: Step, b: Step)
    requires Run(Next, s, steps) == Some(m) && Next(m, a).Some?
    ensures Run(Next, s, steps + [a, b]) == Next(Next(m, a).value, b)
  {
    var all := steps + [a, b];
    assert all[..|all|-1] == steps + [a] && (steps + [a])[..|steps|] == steps;
  }

  /** From every reachable state in which the loop waits for work, and for whatever the tool calls
      come back with: the loop, on its own steps alone, works off everything queued up to slot `i`,
      unless the close signal is among it; each of these requests ends with its own reply. */
  lemma BacklogIsServed(s: State, i: nat, replies: seq<ToolReply>) returns (steps: seq<Step>, t: State)
    requires Reachable(s) && s.loop == Idle && s.taken <= i < |s.slots| && |replies| == i + 1 - s.taken
    requires forall j :: s.taken <= j <= i ==> s.slots[j].item != Sentinel
    ensures forall step :: step in steps ==> step == Take || step.Finish?
    ensures Run(Next, s, steps) == Some(t) && WorkedOff(s, t, replies)
    ensures forall j :: 0 <= j <= i ==> t.slots[j].future.Resolved?
  {
    ReachableInv(s);
    steps := Served(replies);
    ServedOnly(replies);
    forall j | s.taken <= j <= i
      ensures s.slots[j].item.Call?
    {
      assert s.slots[j].item != Sentinel;
    }
    t := ServeAll(s, replies);
    forall j | 0 <= j <= i
      ensures t.slots[j].future.Resolved?
    {
      BacklogResolved(s, t, replies, j);
    }
  }

  lemma BacklogResolved(s: State, t: State, replies: seq<ToolReply>, j: nat)
    requires Inv(s) && s.loop == Idle && WorkedOff(s, t, replies) && j < t.taken && j < |s.slots|
    ensures t.slots[j].future.Resolved?
  {
    assert AnsweredBy(s, t, replies, j) && SlotFine(s, j);
  }

  /** And a call that is being served ends, whatever it comes back with, in the loop waiting for
      the next one. */
  lemma ServingEnds(s: State, reply: ToolReply)
    requires Reachable(s) && s.loop == Serving
    ensures Next(s, Finish(reply)).Some? && s.taken > 0
    ensures var t := Next(s, Finish(reply)).value;
      t.loop == Idle && t.taken == s.taken <= |t.slots|
      && t.slots[s.taken - 1].future.Resolved? && t.slots[s.taken - 1].future.reply == reply
  {
    ReachableInv(s);
    assert SlotFine(s, s.taken - 1);
  }

  /** A waiting loop takes the next item as soon as there is one: it serves a call, and stops at
      the close signal. */
  lemma IdleTakes(s: State)
    requires Reachable(s) && s.loop == Idle
    ensures Next(s, Take).Some? <==> s.taken < |s.slots|
    ensures s.taken < |s.slots| ==>
      var t := Next(s, Take).value;
      t.taken == s.taken + 1 && t.slots == s.slots && t.loop == if s.slots[s.taken].item == Sentinel then Stopped else Serving
  {
    ReachableInv(s);
  }

  /** Nothing of this rests on the world being kind: a loop that runs may die at any moment, a
      connection that is not ready may fail, and a wait for it may run out. */
  lemma FaultsPossible(s: State)
    requires Reachable(s)
    ensures s.loop != Stopped ==> Next(s, Dies).Some?
    ensures s.loop == Connecting || s.loop == Connected ==> Next(s, ConnectFails).Some?
    ensures s.loop == Failing ==> Next(s, SetReadyFailed).Some?
    ensures s.construction == Starting ==> if s.ready then Next(s, Wake).Some? else Next(s, WaitTimesOut).Some?
  {
    ReachableInv(s);
  }
}
