/** What a whole plan lists and what carrying it out does, from the two version texts on. */
module PlanMeaning {
  import Api = DeprecatedApi
  import opened Lists
  import opened NodeSteps
  import opened Planner
  import opened Readiness
  import opened Retriever
  import opened Rollout
  import opened Traces
  import opened Versions
  import opened Wrappers

  // ---------------------------------------------------------------- what the phases list

  function ListedResults(phases: seq<Phase>): seq<Answer> {
    Join(seq(|phases|, i requires 0 <= i < |phases| => phases[i].results))
  }

  function ListedFindings(phases: seq<Phase>): seq<Api.Finding> {
    Join(seq(|phases|, i requires 0 <= i < |phases| => phases[i].findings))
  }

  function ListedRisks(phases: seq<Phase>): seq<Risk> {
    Join(seq(|phases|, i requires 0 <= i < |phases| => phases[i].risks))
  }

  lemma PlanShares(inputs: Inputs, path: seq<string>, minors: seq<string>)
    requires |path| == |minors| + 1
    ensures var phases := Plan(inputs, path, minors);
      && ListedResults(phases) == Join(Shares(inputs.results, ResultAt, minors))
      && ListedFindings(phases) == Join(Shares(inputs.findings, FindingAt, minors))
      && ListedRisks(phases) == Join(Shares(inputs.risks, RiskAt, minors))
  {
    var phases := Plan(inputs, path, minors);
    assert seq(|phases|, i requires 0 <= i < |phases| => phases[i].results) == Shares(inputs.results, ResultAt, minors);
    assert seq(|phases|, i requires 0 <= i < |phases| => phases[i].findings) == Shares(inputs.findings, FindingAt, minors);
    assert seq(|phases|, i requires 0 <= i < |phases| => phases[i].risks) == Shares(inputs.risks, RiskAt, minors);
  }

  ghost predicate NoRepeats(tags: seq<string>) {
    forall i, j :: 0 <= i < j < |tags| ==> tags[i] != tags[j]
  }

  /** An item with one tag is dealt out as often as it occurs, or never. */
  lemma DealtByTag<T>(belongs: string -> T -> bool, tags: seq<string>, x: T, copies: nat, tag: string)
    requires NoRepeats(tags) && forall t :: belongs(t)(x) <==> t == tag
    ensures Dealt(belongs, tags, x, copies) == if tag in tags then copies else 0
  {
    if tag in tags {
      var at :| 0 <= at < |tags| && tags[at] == tag;
      DealtOnce(belongs, tags, x, copies, at);
    } else {
      DealtExactly(belongs, tags, x, copies);
    }
  }

  lemma AscendingNoRepeats(minors: seq<string>)
    requires Ascending(minors)
    ensures NoRepeats(minors)
  {
    forall i, j | 0 <= i < j < |minors|
      ensures minors[i] != minors[j]
    {
      assert PairLess(MinorTuple(minors[i]).value, MinorTuple(minors[j]).value);
    }
  }

  lemma ResultCopies(inputs: Inputs, path: seq<string>, minors: seq<string>, x: Answer)
    requires |path| == |minors| + 1 && NoRepeats(minors)
    ensures multiset(ListedResults(Plan(inputs, path, minors)))[x] == if x.minor in minors then multiset(inputs.results)[x] else 0
  {
    PlanShares(inputs, path, minors);
    SharesDealt(inputs.results, ResultAt, minors, x);
    DealtByTag(ResultAt, minors, x, multiset(inputs.results)[x], x.minor);
  }

  lemma FindingCopies(inputs: Inputs, path: seq<string>, minors: seq<string>, x: Api.Finding)
    requires |path| == |minors| + 1 && NoRepeats(minors)
    ensures multiset(ListedFindings(Plan(inputs, path, minors)))[x] == if x.target in minors then multiset(inputs.findings)[x] else 0
  {
    PlanShares(inputs, path, minors);
    SharesDealt(inputs.findings, FindingAt, minors, x);
    DealtByTag(FindingAt, minors, x, multiset(inputs.findings)[x], x.target);
  }

  lemma StepLabelInjective(a: string, b: string)
    ensures StepLabel(a) == StepLabel(b) <==> a == b
  {
    if StepLabel(a) == StepLabel(b) {
      assert StepLabel(a)[3..] == a && StepLabel(b)[3..] == b;
    }
  }

  /** Phase `i` holds all the copies of a risk of its step or of none, and no other risk. */
  lemma RiskInPhase(inputs: Inputs, path: seq<string>, minors: seq<string>, i: nat, r: Risk)
    requires |path| == |minors| + 1 && i < |minors|
    ensures multiset(Plan(inputs, path, minors)[i].risks)[r] ==
      if r.step.None? || r.step.value == StepLabel(minors[i]) then multiset(inputs.risks)[r] else 0
  {
    FilterMultiplicity(inputs.risks, RiskAt(minors[i]), r);
  }

  /** A risk of one step is listed once per copy, if a phase carries its label, and else never. */
  lemma RiskCopies(inputs: Inputs, path: seq<string>, minors: seq<string>, r: Risk, m: string)
    requires |path| == |minors| + 1 && NoRepeats(minors) && r.step == Some(StepLabel(m))
    ensures multiset(ListedRisks(Plan(inputs, path, minors)))[r] == if m in minors then multiset(inputs.risks)[r] else 0
  {
    PlanShares(inputs, path, minors);
    SharesDealt(inputs.risks, RiskAt, minors, r);
    forall t
      ensures RiskAt(t)(r) <==> t == m
    {
      StepLabelInjective(t, m);
    }
    DealtByTag(RiskAt, minors, r, multiset(inputs.risks)[r], m);
  }

  /** All the copies of `r` are listed, over all phases together. */
  ghost predicate AllListed(inputs: Inputs, path: seq<string>, minors: seq<string>, r: Risk)
    requires |path| == |minors| + 1
  {
    multiset(ListedRisks(Plan(inputs, path, minors)))[r] == multiset(inputs.risks)[r]
  }

  /** A labelled risk of the input is listed exactly when a phase carries its label. */
  lemma RiskListedIff(inputs: Inputs, path: seq<string>, minors: seq<string>, r: Risk, m: string)
    requires |path| == |minors| + 1 && NoRepeats(minors) && r in inputs.risks && r.step == Some(StepLabel(m))
    ensures AllListed(inputs, path, minors, r) <==> m in minors
  {
    RiskCopies(inputs, path, minors, r, m);
    assert multiset(inputs.risks)[r] > 0;
  }

  lemma ResultsListed(inputs: Inputs, path: seq<string>, minors: seq<string>)
    requires |path| == |minors| + 1 && NoRepeats(minors)
    requires forall a :: a in inputs.results ==> a.minor in minors
    ensures multiset(ListedResults(Plan(inputs, path, minors))) == multiset(inputs.results)
  {
    forall x
      ensures multiset(ListedResults(Plan(inputs, path, minors)))[x] == multiset(inputs.results)[x]
    {
      ResultCopies(inputs, path, minors, x);
    }
  }

  lemma FindingsListed(inputs: Inputs, path: seq<string>, minors: seq<string>)
    requires |path| == |minors| + 1 && NoRepeats(minors)
    ensures multiset(ListedFindings(Plan(inputs, path, minors))) == multiset(inputs.findings) <==>
      forall f :: f in inputs.findings ==> f.target in minors
  {
    forall x
      ensures multiset(ListedFindings(Plan(inputs, path, minors)))[x] == if x.target in minors then multiset(inputs.findings)[x] else 0
    {
      FindingCopies(inputs, path, minors, x);
    }
    if multiset(ListedFindings(Plan(inputs, path, minors))) == multiset(inputs.findings) {
      forall f | f in inputs.findings
        ensures f.target in minors
      {
        assert multiset(inputs.findings)[f] > 0;
      }
    }
  }

  // ---------------------------------------------------------------- carrying it out

  /** The commands of a plan, phase by phase. */
  function PlanBlocks(phases: seq<Phase>): (blocks: seq<seq<Command>>)
    ensures |blocks| == |phases|
  {
    seq(|phases|, i requires 0 <= i < |phases| => Flatten(phases[i].controlPlane) + Flatten(phases[i].workers))
  }

  lemma PlanIsRollout(inputs: Inputs, path: seq<string>, minors: seq<string>)
    requires |path| == |minors| + 1
    ensures PlanBlocks(Plan(inputs, path, minors)) == PhaseBlocks(inputs.controlPlane, inputs.workers, minors)
  {
    assert PlanBlocks(Plan(inputs, path, minors)) == PhaseBlocks(inputs.controlPlane, inputs.workers, minors);
  }

  lemma MinorsConsecutive(current: string, target: string, path: seq<string>, minors: seq<string>, cur: Version, tgt: Version)
    requires UpgradePath(current, target) == Ok(path) && TargetMinors(path) == Some(minors)
    requires ParseVersion(current) == Ok(cur) && ParseVersion(target) == Ok(tgt)
    ensures |path| == |minors| + 1 && |minors| == tgt.minor - cur.minor
    ensures Consecutive(minors, cur.minor)
  {
    PathMinors(current, target, path, cur, tgt);
  }

  /** Phase `i` takes over where the phase before it ended, and goes one minor on. */
  ghost predicate PhaseChained(phases: seq<Phase>, current: string, cur: Version, i: int) {
    0 <= i < |phases| ==>
      && phases[i].number == i + 1
      && phases[i].from == (if i == 0 then current else phases[i - 1].to)
      && MinorLabel(phases[i].to).Some?
      && MinorTuple(MinorLabel(phases[i].to).value) == Some((cur.major, cur.minor + i + 1))
      && (phases[i].isFinal <==> i == |phases| - 1)
  }

  /** The phases are numbered from 1, lead from the current version to the target without a gap,
      one minor each, and only the last is final; a target with a patch is its end, word for word. */
  lemma PhasesChain(inputs: Inputs, current: string, target: string, path: seq<string>, minors: seq<string>, cur: Version, tgt: Version)
    requires UpgradePath(current, target) == Ok(path) && TargetMinors(path) == Some(minors)
    requires ParseVersion(current) == Ok(cur) && ParseVersion(target) == Ok(tgt)
    ensures |path| == |minors| + 1 && |minors| == tgt.minor - cur.minor > 0
    ensures var phases := Plan(inputs, path, minors);
      && (forall i :: PhaseChained(phases, current, cur, i))
      && (tgt.hasPatch ==> phases[|phases| - 1].to == target)
  {
    PathMinors(current, target, path, cur, tgt);
    PathSteps(current, target, path, cur, tgt);
    PathSpelled(current, target, path, cur, tgt, 0);
    forall i
      ensures PhaseChained(Plan(inputs, path, minors), current, cur, i)
    {
      if 0 <= i < |minors| {
        assert ReadsAs(path[i + 1], cur.major, cur.minor + (i + 1));
        OnePhaseChained(inputs, path, minors, current, cur, i);
      }
    }
  }

  lemma OnePhaseChained(inputs: Inputs, path: seq<string>, minors: seq<string>, current: string, cur: Version, i: nat)
    requires |path| == |minors| + 1 && i < |minors| && path[0] == current
    requires ReadsAs(path[i + 1], cur.major, cur.minor + (i + 1))
    ensures PhaseChained(Plan(inputs, path, minors), current, cur, i)
  {
  }

  /** Step `j` of a phase is that of node `j`, with its commands in the order of the source. */
  ghost predicate ControlPlaneStepAt(phase: Phase, nodes: seq<NodeName>, release: string, j: int) {
    0 <= j < |nodes| && j < |phase.controlPlane| ==>
      var x := nodes[j];
      phase.controlPlane[j] == NodeStep(x, j + 1,
        if j == 0 then [ShowPlan(x), InstallKubeadm(x, release), UpgradeApply(x, release), InstallKubelet(x, release), RestartKubelet(x)]
        else [InstallKubeadm(x, release), UpgradeNode(x), InstallKubelet(x, release), RestartKubelet(x)])
  }

  ghost predicate WorkerStepAt(phase: Phase, nodes: seq<NodeName>, release: string, j: int) {
    0 <= j < |nodes| && j < |phase.workers| ==>
      var x := nodes[j];
      phase.workers[j] == NodeStep(x, j + 1,
        [Drain(x), InstallKubeadm(x, release), UpgradeNode(x), InstallKubelet(x, release), RestartKubelet(x), Uncordon(x)])
  }

  /** In every phase each node has its step, numbered in order, with its commands spelled for the
      minor of the phase. */
  lemma PhaseSteps(inputs: Inputs, path: seq<string>, minors: seq<string>, i: nat)
    requires |path| == |minors| + 1 && i < |minors|
    ensures var phase := Plan(inputs, path, minors)[i];
      && |phase.controlPlane| == |inputs.controlPlane| && |phase.workers| == |inputs.workers|
      && (forall j :: ControlPlaneStepAt(phase, inputs.controlPlane, minors[i], j))
      && (forall j :: WorkerStepAt(phase, inputs.workers, minors[i], j))
  {
    var phase := Plan(inputs, path, minors)[i];
    forall j
      ensures ControlPlaneStepAt(phase, inputs.controlPlane, minors[i], j)
    {
      if 0 <= j < |inputs.controlPlane| {
        CommandsInOrder(inputs.controlPlane[j], j == 0, minors[i]);
      }
    }
  }

  lemma CommandsInOrder(x: NodeName, first: bool, release: string)
    ensures ControlPlaneCommands(x, first, release) ==
      if first then [ShowPlan(x), InstallKubeadm(x, release), UpgradeApply(x, release), InstallKubelet(x, release), RestartKubelet(x)]
      else [InstallKubeadm(x, release), UpgradeNode(x), InstallKubelet(x, release), RestartKubelet(x)]
  {
  }

  /** From two version texts to a safe upgrade: on a cluster ready at the current minor, no
      command of the plan is refused, and after any number of its commands the skew policy and
      the cordon rules hold and the next command is lawful. */
  lemma PlanSafeThroughout(inputs: Inputs, current: string, target: string, path: seq<string>, minors: seq<string>,
                           cur: Version, tgt: Version, s: Cluster, n: nat)
    requires UpgradePath(current, target) == Ok(path) && TargetMinors(path) == Some(minors)
    requires ParseVersion(current) == Ok(cur) && ParseVersion(target) == Ok(tgt)
    requires Distinct(inputs.controlPlane) && Distinct(inputs.workers) && inputs.controlPlane != []
    requires Ready(s, Names(inputs.controlPlane), Names(inputs.workers), cur.minor)
    ensures |path| == |minors| + 1
    ensures var commands := Join(PlanBlocks(Plan(inputs, path, minors)));
      n <= |commands| ==>
        && Rollout.Run(s, commands[..n]).Some? && Safe(Rollout.Run(s, commands[..n]).value)
        && (n < |commands| ==>
              && Rollout.Run(s, commands[..n + 1]).Some?
              && Lawful(Rollout.Run(s, commands[..n]).value, Rollout.Run(s, commands[..n + 1]).value))
  {
    MinorsConsecutive(current, target, path, minors, cur, tgt);
    PlanIsRollout(inputs, path, minors);
    if n <= |RolloutCommands(inputs.controlPlane, inputs.workers, minors)| {
      EveryPrefixIsSafe(s, inputs.controlPlane, inputs.workers, cur.minor, minors, n);
    }
  }

  /** After phase `i` every node is exactly `i` minors on and uncordoned; after all phases, at
      the target. */
  lemma PlanArrives(inputs: Inputs, current: string, target: string, path: seq<string>, minors: seq<string>,
                    cur: Version, tgt: Version, s: Cluster, i: nat) returns (t: Cluster)
    requires UpgradePath(current, target) == Ok(path) && TargetMinors(path) == Some(minors)
    requires ParseVersion(current) == Ok(cur) && ParseVersion(target) == Ok(tgt)
    requires Distinct(inputs.controlPlane) && Distinct(inputs.workers) && inputs.controlPlane != []
    requires Ready(s, Names(inputs.controlPlane), Names(inputs.workers), cur.minor)
    requires 0 < i <= |minors|
    ensures |path| == |minors| + 1 && |minors| == tgt.minor - cur.minor
    ensures Rollout.Run(s, Join(PlanBlocks(Plan(inputs, path, minors))[..i])) == Some(t)
    ensures Converged(t, Names(inputs.controlPlane), Names(inputs.workers), cur.minor + i)
  {
    MinorsConsecutive(current, target, path, minors, cur, tgt);
    PlanIsRollout(inputs, path, minors);
    t := RolloutPrefix(s, inputs.controlPlane, inputs.workers, cur.minor, minors, i);
    ReachesRuns(Step, GoodStep, s, Join(PhaseBlocks(inputs.controlPlane, inputs.workers, minors)[..i]), t);
  }
}
