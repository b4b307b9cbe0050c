/** `build_upgrade_plan`: one phase per step of the path, with its share of the findings, its
    commands and its risks; and what the whole plan then lists and does. */
module Planner {
  import Api = DeprecatedApi
  import opened Lists
  import opened NodeSteps
  import opened Readiness
  import opened Retriever
  import opened Versions
  import opened Wrappers

  datatype Phase = Phase(number: nat, from: string, to: string,
                         findings: seq<Api.Finding>, results: seq<Answer>,
                         controlPlane: seq<NodeStep>, workers: seq<NodeStep>,
                         risks: seq<Risk>, isFinal: bool)

  /** What a plan is built from, besides the path. */
  datatype Inputs = Inputs(controlPlane: seq<NodeName>, workers: seq<NodeName>,
                           results: seq<Answer>, findings: seq<Api.Finding>, risks: seq<Risk>)

  function ResultAt(minor: string): Answer -> bool {
    (a: Answer) => a.minor == minor
  }

  function FindingAt(minor: string): Api.Finding -> bool {
    (f: Api.Finding) => f.target == minor
  }

  function RiskAt(minor: string): Risk -> bool {
    (r: Risk) => r.step.None? || r.step.value == StepLabel(minor)
  }

  /** Phase `i + 1`, which goes from entry `i` of the path to entry `i + 1`. */
  function PhaseOf(inputs: Inputs, path: seq<string>, i: nat, minor: string): Phase
    requires i + 1 < |path|
  {
    Phase(i + 1, path[i], path[i + 1],
          Filter(inputs.findings, FindingAt(minor)), Filter(inputs.results, ResultAt(minor)),
          ControlPlaneSteps(inputs.controlPlane, minor), WorkerSteps(inputs.workers, minor),
          Filter(inputs.risks, RiskAt(minor)), i + 2 == |path|)
  }

  /** `build_upgrade_plan`; None stands for the IndexError of an entry without a dot. */
  method BuildUpgradePlan(inputs: Inputs, path: seq<string>) returns (r: Option<seq<Phase>>)
    ensures |path| <= 1 ==> r == Some([])
    ensures |path| > 1 ==> r == match TargetMinors(path)
                                case None => None
                                case Some(minors) => Some(Plan(inputs, path, minors))
  {
    r := BuildPhases(inputs, path, MinorLabel);
    if |path| > 1 {
      forall i | 0 <= i < |path| - 1
        ensures path[1..][i] == path[i + 1]
      {
      }
      if TargetMinors(path).Some? {
        var minors := TargetMinors(path).value;
        forall i | 0 <= i < |minors|
          ensures Labelled(MinorLabel, path, i) && MinorLabel(path[i + 1]).value == minors[i]
        {
          assert MinorLabel(path[1..][i]) == MinorLabel(path[i + 1]);
        }
        assert r.Some? && |r.value| == |minors|;
        forall i | 0 <= i < |minors|
          ensures r.value[i] == Plan(inputs, path, minors)[i]
        {
          assert PhaseAt(inputs, path, MinorLabel, r.value, i);
        }
        assert r.value == Plan(inputs, path, minors);
      } else {
        var i :| 0 <= i < |path[1..]| && MinorLabel(path[1..][i]).None?;
        assert !Labelled(MinorLabel, path, i);
      }
    }
  }

  ghost predicate Labelled(labelOf: string -> Option<string>, path: seq<string>, i: int) {
    0 <= i && i + 1 < |path| && labelOf(path[i + 1]).Some?
  }

  ghost predicate PhaseAt(inputs: Inputs, path: seq<string>, labelOf: string -> Option<string>, phases: seq<Phase>, i: int) {
    && Labelled(labelOf, path, i) && i < |phases|
    && phases[i] == PhaseOf(inputs, path, i, labelOf(path[i + 1]).value)
  }

  /** The loop over the steps of the path. */
  method BuildPhases(inputs: Inputs, path: seq<string>, labelOf: string -> Option<string>) returns (r: Option<seq<Phase>>)
    ensures |path| <= 1 ==> r == Some([])
    ensures |path| > 1 ==> (r.Some? <==> forall i :: 0 <= i < |path| - 1 ==> Labelled(labelOf, path, i))
    ensures r.Some? && |path| > 1 ==> |r.value| == |path| - 1
    ensures r.Some? ==> forall i :: 0 <= i < |r.value| ==> PhaseAt(inputs, path, labelOf, r.value, i)
  {
    var phases := [];
    var i := 1;
    while i < |path|
      invariant 1 <= i && (i <= |path| || i == 1) && |phases| == i - 1
      invariant forall j :: 0 <= j < |phases| ==> PhaseAt(inputs, path, labelOf, phases, j)
    {
      var minor := labelOf(path[i]);
      if minor.None? {
        assert !Labelled(labelOf, path, i - 1);
        return None;
      }
      var cp := BuildControlPlaneSteps(inputs.controlPlane, minor.value);
      var ws := BuildWorkerSteps(inputs.workers, minor.value);
      var phase := Phase(i, path[i - 1], path[i],
                         Filter(inputs.findings, FindingAt(minor.value)), Filter(inputs.results, ResultAt(minor.value)),
                         cp, ws, Filter(inputs.risks, RiskAt(minor.value)), i == |path| - 1);
      assert phase == PhaseOf(inputs, path, i - 1, minor.value);
      ghost var before := phases;
      phases := phases + [phase];
      forall j | 0 <= j < |phases|
        ensures PhaseAt(inputs, path, labelOf, phases, j)
      {
        assert j < |before| ==> PhaseAt(inputs, path, labelOf, before, j);
      }
      i := i + 1;
    }
    forall j | 0 <= j < |path| - 1
      ensures Labelled(labelOf, path, j)
    {
      assert PhaseAt(inputs, path, labelOf, phases, j);
    }
    r := Some(phases);
  }

  function Plan(inputs: Inputs, path: seq<string>, minors: seq<string>): (phases: seq<Phase>)
    requires |path| == |minors| + 1
    ensures |phases| == |minors|
    ensures forall i :: 0 <= i < |phases| ==> phases[i] == PhaseOf(inputs, path, i, minors[i])
  {
    seq(|minors|, i requires 0 <= i < |minors| => PhaseOf(inputs, path, i, minors[i]))
  }
}
