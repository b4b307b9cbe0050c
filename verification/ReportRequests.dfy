/** What a report request answers, decided by the session as each of its looks found it; and that
    every request and every stream comes to its end. */
module ReportRequests {
  import opened SessionProtocol
  import opened SessionGuarantees
  import opened Traces
  import opened Wrappers

  // ---------------------------------------------------------------- the answer

  /** The session as each look of request `i` found it, in order. */
  ghost function Seen(order: Order, steps: seq<Step>, i: nat): seq<State>
    requires After(order, steps).Some?
  {
    if steps == [] then []
    else
      Seen(order, steps[..|steps|-1], i)
      + if steps[|steps|-1] == Look(i) then [After(order, steps[..|steps|-1]).value] else []
  }

  /** The first look decides whether the analysis is still in progress, the second whether it has
      failed, and the third reads the reason or the report. */
  ghost predicate Answers(seen: seq<State>, q: Request) {
    && |seen| <= 3
    && (q == Asked <==> |seen| == 0)
    && (q == InProgress <==> |seen| > 0 && seen[0].status == Running)
    && (|seen| > 1 ==> seen[0].status != Running)
    && (q == NotRunning <==> |seen| == 1 && seen[0].status != Running)
    && (q == SawBroken <==> |seen| == 2 && seen[1].status == Broken)
    && (q == NotBroken <==> |seen| == 2 && seen[1].status != Broken)
    && (q.Failure? <==> |seen| == 3 && seen[1].status == Broken)
    && (q.Failure? ==> q.error == seen[2].error)
    && (q == Report <==> |seen| == 3 && seen[1].status != Broken)
    && (q == Report ==> seen[2].report)
  }

  lemma AnswersNext(order: Order, s: State, i: nat, seen: seq<State>)
    requires Inv(order, s) && i < |s.requests| && Answers(seen, s.requests[i]) && Next(order, s, Look(i)).Some?
    ensures Answers(seen + [s], Next(order, s, Look(i)).value.requests[i])
  {
    assert RequestFine(s, i);
  }

  lemma {:induction false} NothingSeen(order: Order, steps: seq<Step>, i: nat)
    requires After(order, steps).Some? && i >= |After(order, steps).value.requests|
    ensures Seen(order, steps, i) == []
  {
    if steps == [] {
    } else {
      var k := |steps| - 1;
      EveryRun(order, steps[..k]);
      NextRequests(order, After(order, steps[..k]).value, steps[k]);
      NothingSeen(order, steps[..k], i);
    }
  }

  /** Over all runs, whatever the writer does between the looks. */
  lemma {:induction false} AnswerFollowsLooks(order: Order, steps: seq<Step>, i: nat)
    requires After(order, steps).Some? && i < |After(order, steps).value.requests|
    ensures Answers(Seen(order, steps, i), After(order, steps).value.requests[i])
  {
    if steps == [] {
    } else {
      var k := |steps| - 1;
      var s := After(order, steps[..k]).value;
      EveryRun(order, steps[..k]);
      NextRequests(order, s, steps[k]);
      if i >= |s.requests| {
        NothingSeen(order, steps[..k], i);
      } else {
        AnswerFollowsLooks(order, steps[..k], i);
        if steps[k] == Look(i) {
          AnswersNext(order, s, i, Seen(order, steps[..k], i));
        }
      }
    }
  }

  /** There are as many requests as were made, and as many streams as were opened. */
  lemma {:induction false} OnePerClient(order: Order, steps: seq<Step>)
    requires After(order, steps).Some?
    ensures |After(order, steps).value.requests| == multiset(steps)[Ask]
    ensures |After(order, steps).value.streams| == multiset(steps)[Connect]
  {
    if steps == [] {
    } else {
      var k := |steps| - 1;
      OnePerClient(order, steps[..k]);
      assert steps == steps[..k] + [steps[k]];
    }
  }

  // ---------------------------------------------------------------- a request after the end

  /** What an ended run has settled. */
  ghost predicate Settled(s: State, t: State) {
    && s.writer == Ended && t.writer == Ended
    && t.status == s.status && t.report == s.report && t.error == s.error && t.events == s.events
  }

  lemma {:induction false} EndSettles(order: Order, steps: seq<Step>, n: nat)
    requires n <= |steps| && After(order, steps).Some? && After(order, steps[..n]).Some?
    requires After(order, steps[..n]).value.writer == Ended
    ensures Settled(After(order, steps[..n]).value, After(order, steps).value)
    decreases |steps|
  {
    if n == |steps| {
      assert steps[..n] == steps;
    } else {
      assert steps[..|steps|-1][..n] == steps[..n];
      EndSettles(order, steps[..|steps|-1], n);
    }
  }

  /** The looks of a request made after the end find the session as the end has left it. */
  lemma {:induction false} SeenSettled(order: Order, steps: seq<Step>, n: nat, i: nat)
    requires n <= |steps| && After(order, steps).Some? && After(order, steps[..n]).Some?
    requires After(order, steps[..n]).value.writer == Ended && i >= |After(order, steps[..n]).value.requests|
    ensures forall k :: 0 <= k < |Seen(order, steps, i)| ==> Settled(After(order, steps[..n]).value, Seen(order, steps, i)[k])
    decreases |steps|
  {
    if n == |steps| {
      assert steps[..n] == steps;
      NothingSeen(order, steps, i);
    } else {
      var init := steps[..|steps|-1];
      assert init[..n] == steps[..n];
      SeenSettled(order, init, n, i);
      EndSettles(order, init, n);
    }
  }

  /** A request made after the run has ended is never told that it is in progress. If the analysis
      completed, its third look answers the report; if it failed, the failure with its reason. */
  lemma LateRequest(order: Order, steps: seq<Step>, n: nat, i: nat)
    requires n <= |steps| && After(order, steps).Some? && After(order, steps[..n]).Some?
    requires After(order, steps[..n]).value.writer == Ended
    requires |After(order, steps[..n]).value.requests| <= i < |After(order, steps).value.requests|
    ensures var s, q := After(order, steps[..n]).value, After(order, steps).value.requests[i];
      && s.status != Running && q != InProgress
      && (|Seen(order, steps, i)| >= 3 ==>
            q == if s.status == Done then Report else Failure(s.error))
      && (s.status == Done ==> s.report) && (s.status == Broken ==> s.error.Some?)
  {
    AnswerFollowsLooks(order, steps, i);
    SeenSettled(order, steps, n, i);
    EveryRun(order, steps[..n]);
    EndIsBacked(order, After(order, steps[..n]).value);
    ReasonAlwaysFine(order, steps[..n]);
  }

  // ---------------------------------------------------------------- every request is answered

  predicate Answered(q: Request) {
    q == InProgress || q.Failure? || q == Report || q == AssertionFails
  }

  /** An unanswered request always has a look left, and an answered one none. */
  lemma LookLeft(order: Order, s: State, i: nat)
    requires i < |s.requests|
    ensures Next(order, s, Look(i)).Some? <==> !Answered(s.requests[i])
  {
  }

  /** How many looks an unanswered request has left, at most. */
  function LooksLeft(q: Request): nat {
    match q
    case Asked => 3
    case NotRunning => 2
    case SawBroken => 1
    case NotBroken => 1
    case _ => 0
  }

  /** From every run on, with nothing but looks of its own, at most three in all, a request comes
      to its answer, which is the report or a failure or that the analysis is in progress. */
  lemma {:induction false} AnswerComes(order: Order, steps: seq<Step>, i: nat) returns (more: seq<Step>)
    requires After(order, steps).Some? && i < |After(order, steps).value.requests|
    ensures |more| <= LooksLeft(After(order, steps).value.requests[i]) && forall step :: step in more ==> step == Look(i)
    ensures After(order, steps + more).Some? && i < |After(order, steps + more).value.requests|
    ensures Answered(After(order, steps + more).value.requests[i]) && After(order, steps + more).value.requests[i] != AssertionFails
    decreases LooksLeft(After(order, steps).value.requests[i])
  {
    var s := After(order, steps).value;
    if Answered(s.requests[i]) {
      more := [];
      assert steps + [] == steps;
      AnswerFollowsLooks(order, steps, i);
    } else {
      LookLeft(order, s, i);
      var longer, t := OneMoreStep(order, steps, s, Look(i));
      var rest := AnswerComes(order, longer, i);
      more := [Look(i)] + rest;
      assert longer + rest == steps + more;
    }
  }

  /** The runs leave every client free: it may open a stream or ask for the report at any moment, and
      leave its stream at any moment before that is closed. */
  lemma ClientsAreFree(order: Order, s: State, i: nat)
    ensures Next(order, s, Connect).Some? && Next(order, s, Ask).Some?
    ensures i < |s.streams| ==> (Next(order, s, Disconnect(i)).Some? <==> s.streams[i].phase != Closed)
  {
  }
}
