/** Running a list of commands against a state machine that may refuse a command, and the
    traces of states such runs leave behind. */
module Traces {
  import opened Wrappers

  /** The state after all commands, in order; None as soon as one is refused. */
  function Run<S, C>(step: (S, C) -> Option<S>, s: S, commands: seq<C>): Option<S> {
    if commands == [] then Some(s)
    else
      match Run(step, s, commands[..|commands|-1])
      case None => None
      case Some(m) => step(m, commands[|commands|-1])
  }

  /** Command `i` is accepted in state `i`, brings about state `i + 1`, and does so well. */
  ghost predicate StepAt<S, C>(step: (S, C) -> Option<S>, good: (S, C, S) -> bool, trace: seq<S>, commands: seq<C>, i: nat) {
    && i < |commands| && i + 1 < |trace|
    && step(trace[i], commands[i]) == Some(trace[i + 1]) && good(trace[i], commands[i], trace[i + 1])
  }

  ghost predicate IsTrace<S, C>(step: (S, C) -> Option<S>, good: (S, C, S) -> bool, trace: seq<S>, commands: seq<C>) {
    && |trace| == |commands| + 1
    && forall i: nat {:trigger StepAt(step, good, trace, commands, i)} ::
         i < |commands| ==> StepAt(step, good, trace, commands, i)
  }

  /** The commands are all accepted, every step is good, and they end in `t`. */
  ghost predicate Reaches<S(!new), C>(step: (S, C) -> Option<S>, good: (S, C, S) -> bool, s: S, commands: seq<C>, t: S) {
    exists trace :: IsTrace(step, good, trace, commands) && trace[0] == s && trace[|commands|] == t
  }

  lemma ReachesNothing<S(!new), C>(step: (S, C) -> Option<S>, good: (S, C, S) -> bool, s: S)
    ensures Reaches(step, good, s, [], s)
  {
    assert IsTrace(step, good, [s], []);
  }

  lemma ReachesConcat<S(!new), C>(step: (S, C) -> Option<S>, good: (S, C, S) -> bool,
                                  s: S, a: seq<C>, m: S, b: seq<C>, t: S)
    requires Reaches(step, good, s, a, m) && Reaches(step, good, m, b, t)
    ensures Reaches(step, good, s, a + b, t)
  {
    var x :| IsTrace(step, good, x, a) && x[0] == s && x[|a|] == m;
    var y :| IsTrace(step, good, y, b) && y[0] == m && y[|b|] == t;
    var z := x + y[1..];
    forall i: nat | i < |a + b|
      ensures StepAt(step, good, z, a + b, i)
    {
      if i < |a| {
        assert StepAt(step, good, x, a, i);
      } else {
        assert StepAt(step, good, y, b, i - |a|);
      }
    }
    assert IsTrace(step, good, z, a + b);
  }

  lemma ReachesStep<S(!new), C>(step: (S, C) -> Option<S>, good: (S, C, S) -> bool,
                                s: S, commands: seq<C>, m: S, c: C, t: S)
    requires Reaches(step, good, s, commands, m) && step(m, c) == Some(t) && good(m, c, t)
    ensures Reaches(step, good, s, commands + [c], t)
  {
    assert StepAt(step, good, [m, t], [c], 0);
    assert IsTrace(step, good, [m, t], [c]);
    ReachesConcat(step, good, s, commands, m, [c], t);
  }

  /** Blocks of commands, one after the other. */
  function Join<C>(blocks: seq<seq<C>>): seq<C> {
    if blocks == [] then [] else Join(blocks[..|blocks|-1]) + blocks[|blocks|-1]
  }

  /** One more block after those already run. */
  lemma ReachesBlock<S(!new), C>(step: (S, C) -> Option<S>, good: (S, C, S) -> bool,
                                 s: S, blocks: seq<seq<C>>, n: nat, m: S, t: S)
    requires n < |blocks| && Reaches(step, good, s, Join(blocks[..n]), m) && Reaches(step, good, m, blocks[n], t)
    ensures Reaches(step, good, s, Join(blocks[..n + 1]), t)
  {
    ReachesConcat(step, good, s, Join(blocks[..n]), m, blocks[n], t);
    assert blocks[..n + 1][..n] == blocks[..n];
  }

  /** What a good run means for every prefix: it is accepted, and the step after it is good. */
  lemma ReachesPrefix<S(!new), C>(step: (S, C) -> Option<S>, good: (S, C, S) -> bool, s: S, commands: seq<C>, t: S, n: nat)
    requires Reaches(step, good, s, commands, t) && n < |commands|
    ensures Run(step, s, commands[..n]).Some? && Run(step, s, commands[..n + 1]).Some?
    ensures good(Run(step, s, commands[..n]).value, commands[n], Run(step, s, commands[..n + 1]).value)
  {
    var trace :| IsTrace(step, good, trace, commands) && trace[0] == s && trace[|commands|] == t;
    TraceRuns(step, good, trace, commands, n);
    TraceRuns(step, good, trace, commands, n + 1);
    assert StepAt(step, good, trace, commands, n);
  }

  lemma ReachesRuns<S(!new), C>(step: (S, C) -> Option<S>, good: (S, C, S) -> bool, s: S, commands: seq<C>, t: S)
    requires Reaches(step, good, s, commands, t)
    ensures Run(step, s, commands) == Some(t)
  {
    var trace :| IsTrace(step, good, trace, commands) && trace[0] == s && trace[|commands|] == t;
    TraceRuns(step, good, trace, commands, |commands|);
    assert commands[..|commands|] == commands;
  }

  /** State `n` of a trace is where the first `n` commands lead. */
  lemma {:induction false} TraceRuns<S, C>(step: (S, C) -> Option<S>, good: (S, C, S) -> bool, trace: seq<S>, commands: seq<C>, n: nat)
    requires IsTrace(step, good, trace, commands) && n <= |commands|
    ensures Run(step, trace[0], commands[..n]) == Some(trace[n])
  {
    if n == 0 {
    } else {
      TraceRuns(step, good, trace, commands, n - 1);
      assert StepAt(step, good, trace, commands, n - 1);
      assert commands[..n][..n - 1] == commands[..n - 1];
    }
  }

  /** The first block comes first. */
  lemma {:induction false} JoinStarts<C>(blocks: seq<seq<C>>)
    requires blocks != []
    ensures blocks[0] <= Join(blocks)
  {
    if |blocks| > 1 {
      JoinStarts(blocks[..|blocks|-1]);
    }
  }

  /** Once a command has been refused, the rest does not run. */
  lemma {:induction false} RunStuck<S, C>(step: (S, C) -> Option<S>, s: S, commands: seq<C>, n: nat)
    requires n <= |commands| && Run(step, s, commands[..n]) == None
    ensures Run(step, s, commands) == None
  {
    if n < |commands| {
      var front := commands[..|commands|-1];
      assert front[..n] == commands[..n];
      RunStuck(step, s, front, n);
    } else {
      assert commands[..n] == commands;
    }
  }

  lemma RefusedThird<S, C>(step: (S, C) -> Option<S>, s: S, a: C, t: S, b: C, u: S, c: C)
    requires step(s, a) == Some(t) && step(t, b) == Some(u) && step(u, c) == None
    ensures Run(step, s, [a, b, c]) == None
  {
    assert [a, b, c][..2] == [a, b] && [a, b][..1] == [a] && [a][..0] == [];
    assert Run(step, s, [a]) == Some(t);
  }
}
