/** The per-node command lists of an upgrade phase: `_build_control_plane_steps` and
    `_build_worker_steps`. A command is the shell command the plan prints; `release` is the
    minor label it is printed with. */
module NodeSteps {
  import Traces

  /** A node is known by its name. */
  datatype NodeName = NodeName(text: string)

  datatype Command =
    | ShowPlan(node: NodeName)                        // kubeadm upgrade plan
    | InstallKubeadm(node: NodeName, release: string) // dnf install -y kubeadm-<release>*
    | UpgradeApply(node: NodeName, release: string)   // kubeadm upgrade apply v<release>.0
    | UpgradeNode(node: NodeName)                     // kubeadm upgrade node
    | InstallKubelet(node: NodeName, release: string) // dnf install -y kubelet-<release>* kubectl-<release>*
    | RestartKubelet(node: NodeName)                  // systemctl daemon-reload && systemctl restart kubelet
    | Drain(node: NodeName)                           // kubectl drain <node> ...
    | Uncordon(node: NodeName)                        // kubectl uncordon <node>

  datatype NodeStep = NodeStep(node: NodeName, order: nat, commands: seq<Command>)

  function ControlPlaneCommands(node: NodeName, first: bool, release: string): seq<Command> {
    (if first
     then [ShowPlan(node), InstallKubeadm(node, release), UpgradeApply(node, release)]
     else [InstallKubeadm(node, release), UpgradeNode(node)])
    + [InstallKubelet(node, release), RestartKubelet(node)]
  }

  function WorkerCommands(node: NodeName, release: string): seq<Command> {
    [Drain(node), InstallKubeadm(node, release), UpgradeNode(node),
     InstallKubelet(node, release), RestartKubelet(node), Uncordon(node)]
  }

  function ControlPlaneSteps(nodes: seq<NodeName>, release: string): (steps: seq<NodeStep>)
    ensures |steps| == |nodes|
  {
    seq(|nodes|, i requires 0 <= i < |nodes| =>
      NodeStep(nodes[i], i + 1, ControlPlaneCommands(nodes[i], i == 0, release)))
  }

  function WorkerSteps(nodes: seq<NodeName>, release: string): (steps: seq<NodeStep>)
    ensures |steps| == |nodes|
  {
    seq(|nodes|, i requires 0 <= i < |nodes| => NodeStep(nodes[i], i + 1, WorkerCommands(nodes[i], release)))
  }

  /** `_build_control_plane_steps`. */
  method BuildControlPlaneSteps(nodes: seq<NodeName>, release: string) returns (steps: seq<NodeStep>)
    ensures steps == ControlPlaneSteps(nodes, release)
  {
    steps := [];
    for i := 0 to |nodes|
      invariant steps == ControlPlaneSteps(nodes, release)[..i]
    {
      var node := nodes[i];
      var commands := [];
      if i == 0 {
        commands := commands + [ShowPlan(node)];
        commands := commands + [InstallKubeadm(node, release)];
        commands := commands + [UpgradeApply(node, release)];
      } else {
        commands := commands + [InstallKubeadm(node, release)];
        commands := commands + [UpgradeNode(node)];
      }
      commands := commands + [InstallKubelet(node, release)];
      commands := commands + [RestartKubelet(node)];
      assert commands == ControlPlaneCommands(node, i == 0, release);
      steps := steps + [NodeStep(node, i + 1, commands)];
    }
  }

  /** `_build_worker_steps`. */
  method BuildWorkerSteps(nodes: seq<NodeName>, release: string) returns (steps: seq<NodeStep>)
    ensures steps == WorkerSteps(nodes, release)
  {
    steps := [];
    for i := 0 to |nodes|
      invariant steps == WorkerSteps(nodes, release)[..i]
    {
      steps := steps + [NodeStep(nodes[i], i + 1, WorkerCommands(nodes[i], release))];
    }
  }

  function Commands(steps: seq<NodeStep>): (blocks: seq<seq<Command>>)
    ensures |blocks| == |steps|
    ensures forall i :: 0 <= i < |blocks| ==> blocks[i] == steps[i].commands
  {
    seq(|steps|, i requires 0 <= i < |steps| => steps[i].commands)
  }

  /** All commands of a list of steps, in the order an operator runs them. */
  function Flatten(steps: seq<NodeStep>): seq<Command> {
    Traces.Join(Commands(steps))
  }

  /** One phase: the control plane steps, then the worker steps. */
  function PhaseCommands(controlPlane: seq<NodeName>, workers: seq<NodeName>, release: string): seq<Command> {
    Flatten(ControlPlaneSteps(controlPlane, release)) + Flatten(WorkerSteps(workers, release))
  }

  function PhaseBlocks(controlPlane: seq<NodeName>, workers: seq<NodeName>, releases: seq<string>): (blocks: seq<seq<Command>>)
    ensures |blocks| == |releases|
    ensures forall i :: 0 <= i < |blocks| ==> blocks[i] == PhaseCommands(controlPlane, workers, releases[i])
  {
    seq(|releases|, i requires 0 <= i < |releases| => PhaseCommands(controlPlane, workers, releases[i]))
  }

  /** A whole rollout: one phase per label. */
  function RolloutCommands(controlPlane: seq<NodeName>, workers: seq<NodeName>, releases: seq<string>): seq<Command> {
    Traces.Join(PhaseBlocks(controlPlane, workers, releases))
  }

  function ControlPlaneBlocks(nodes: seq<NodeName>, release: string): (blocks: seq<seq<Command>>)
    ensures |blocks| == |nodes|
    ensures forall i :: 0 <= i < |blocks| ==> blocks[i] == ControlPlaneCommands(nodes[i], i == 0, release)
  {
    seq(|nodes|, i requires 0 <= i < |nodes| => ControlPlaneCommands(nodes[i], i == 0, release))
  }

  function WorkerBlocks(nodes: seq<NodeName>, release: string): (blocks: seq<seq<Command>>)
    ensures |blocks| == |nodes|
    ensures forall i :: 0 <= i < |blocks| ==> blocks[i] == WorkerCommands(nodes[i], release)
  {
    seq(|nodes|, i requires 0 <= i < |nodes| => WorkerCommands(nodes[i], release))
  }

  /** The steps of a phase run node by node. */
  lemma FlattenSteps(nodes: seq<NodeName>, release: string)
    ensures Flatten(ControlPlaneSteps(nodes, release)) == Traces.Join(ControlPlaneBlocks(nodes, release))
    ensures Flatten(WorkerSteps(nodes, release)) == Traces.Join(WorkerBlocks(nodes, release))
  {
    assert Commands(ControlPlaneSteps(nodes, release)) == ControlPlaneBlocks(nodes, release);
    assert Commands(WorkerSteps(nodes, release)) == WorkerBlocks(nodes, release);
  }

  // ---------------------------------------------------------------- sizes

  /** A weight that adds up over concatenation: the number of commands, or of `upgrade apply`. */
  function Weight(commands: seq<Command>, appliesOnly: bool): nat {
    if commands == [] then 0
    else Weight(commands[..|commands|-1], appliesOnly)
         + if !appliesOnly || commands[|commands|-1].UpgradeApply? then 1 else 0
  }

  lemma {:induction false} WeightConcat(a: seq<Command>, b: seq<Command>, appliesOnly: bool)
    ensures Weight(a + b, appliesOnly) == Weight(a, appliesOnly) + Weight(b, appliesOnly)
  {
    if b == [] {
      assert a + b == a;
    } else {
      WeightConcat(a, b[..|b|-1], appliesOnly);
      assert (a + b)[..|a + b|-1] == a + b[..|b|-1];
    }
  }

  lemma {:induction false} WeightIsLength(commands: seq<Command>)
    ensures Weight(commands, false) == |commands|
  {
    if commands == [] {
    } else {
      WeightIsLength(commands[..|commands|-1]);
    }
  }

  /** Blocks of equal weight, except that the first one may weigh `extra` more. */
  lemma {:induction false} WeightOfBlocks(blocks: seq<seq<Command>>, appliesOnly: bool, each: nat, extra: nat)
    requires forall i :: 0 <= i < |blocks| ==> Weight(blocks[i], appliesOnly) == each + if i == 0 then extra else 0
    ensures Weight(Traces.Join(blocks), appliesOnly) == |blocks| * each + if blocks == [] then 0 else extra
  {
    if blocks == [] {
    } else {
      var n := |blocks|;
      var front := blocks[..n - 1];
      forall i | 0 <= i < |front|
        ensures Weight(front[i], appliesOnly) == each + if i == 0 then extra else 0
      {
        assert front[i] == blocks[i];
      }
      WeightOfBlocks(front, appliesOnly, each, extra);
      WeightConcat(Traces.Join(front), blocks[n - 1], appliesOnly);
      Times(n, each);
    }
  }

  lemma Times(n: nat, each: nat)
    requires n > 0
    ensures n * each == (n - 1) * each + each
  {
  }

  lemma {:induction false} NoApply(commands: seq<Command>)
    requires forall i :: 0 <= i < |commands| ==> !commands[i].UpgradeApply?
    ensures Weight(commands, true) == 0
  {
    if commands == [] {
    } else {
      NoApply(commands[..|commands|-1]);
    }
  }

  /** One `upgrade apply` among commands that are not. */
  lemma OneApply(before: seq<Command>, apply: Command, after: seq<Command>)
    requires apply.UpgradeApply?
    requires forall i :: 0 <= i < |before| ==> !before[i].UpgradeApply?
    requires forall i :: 0 <= i < |after| ==> !after[i].UpgradeApply?
    ensures Weight(before + [apply] + after, true) == 1
  {
    NoApply(before);
    NoApply(after);
    WeightConcat(before + [apply], after, true);
    assert (before + [apply])[..|before|] == before;
  }

  lemma FirstNodeWeight(node: NodeName, release: string)
    ensures Weight(ControlPlaneCommands(node, true, release), true) == 1
  {
    var before := [ShowPlan(node), InstallKubeadm(node, release)];
    var after := [InstallKubelet(node, release), RestartKubelet(node)];
    OneApply(before, UpgradeApply(node, release), after);
    assert ControlPlaneCommands(node, true, release) == before + [UpgradeApply(node, release)] + after;
  }

  lemma NodeWeights(node: NodeName, first: bool, release: string)
    ensures |ControlPlaneCommands(node, first, release)| == 4 + if first then 1 else 0
    ensures |WorkerCommands(node, release)| == 6
    ensures Weight(ControlPlaneCommands(node, first, release), true) == if first then 1 else 0
    ensures Weight(WorkerCommands(node, release), true) == 0
  {
    NoApply(WorkerCommands(node, release));
    if first {
      FirstNodeWeight(node, release);
    } else {
      NoApply(ControlPlaneCommands(node, first, release));
    }
  }

  lemma ControlPlaneWeights(nodes: seq<NodeName>, release: string)
    ensures Weight(Flatten(ControlPlaneSteps(nodes, release)), false) == |nodes| * 4 + if nodes == [] then 0 else 1
    ensures Weight(Flatten(ControlPlaneSteps(nodes, release)), true) == if nodes == [] then 0 else 1
  {
    var blocks := ControlPlaneBlocks(nodes, release);
    forall i | 0 <= i < |blocks|
      ensures Weight(blocks[i], false) == 4 + if i == 0 then 1 else 0
      ensures Weight(blocks[i], true) == 0 + if i == 0 then 1 else 0
    {
      NodeWeights(nodes[i], i == 0, release);
      WeightIsLength(blocks[i]);
    }
    WeightOfBlocks(blocks, false, 4, 1);
    WeightOfBlocks(blocks, true, 0, 1);
    FlattenSteps(nodes, release);
  }

  lemma WorkerWeights(nodes: seq<NodeName>, release: string)
    ensures Weight(Flatten(WorkerSteps(nodes, release)), false) == |nodes| * 6
    ensures Weight(Flatten(WorkerSteps(nodes, release)), true) == 0
  {
    var blocks := WorkerBlocks(nodes, release);
    forall i | 0 <= i < |blocks|
      ensures Weight(blocks[i], false) == 6 + (if i == 0 then 0 else 0) && Weight(blocks[i], true) == 0
    {
      NodeWeights(nodes[i], false, release);
      WeightIsLength(blocks[i]);
    }
    WeightOfBlocks(blocks, false, 6, 0);
    WeightOfBlocks(blocks, true, 0, 0);
    FlattenSteps(nodes, release);
  }

  function PhaseSize(controlPlane: nat, workers: nat): nat {
    (if controlPlane == 0 then 0 else 5 + 4 * (controlPlane - 1)) + 6 * workers
  }

  lemma PhaseWeights(controlPlane: seq<NodeName>, workers: seq<NodeName>, release: string)
    ensures Weight(PhaseCommands(controlPlane, workers, release), false) == PhaseSize(|controlPlane|, |workers|)
    ensures Weight(PhaseCommands(controlPlane, workers, release), true) == if controlPlane == [] then 0 else 1
  {
    ControlPlaneWeights(controlPlane, release);
    WorkerWeights(workers, release);
    var cs, ws := Flatten(ControlPlaneSteps(controlPlane, release)), Flatten(WorkerSteps(workers, release));
    WeightConcat(cs, ws, false);
    WeightConcat(cs, ws, true);
  }

  /** With `c >= 1` control plane nodes and `w` workers a rollout of `n` phases has exactly
      `n * (5 + 4 * (c - 1) + 6 * w)` commands, and `kubeadm upgrade apply` is among them exactly
      once per phase; without a control plane node it never runs. */
  lemma RolloutSize(controlPlane: seq<NodeName>, workers: seq<NodeName>, releases: seq<string>)
    ensures |RolloutCommands(controlPlane, workers, releases)| == |releases| * PhaseSize(|controlPlane|, |workers|)
    ensures Weight(RolloutCommands(controlPlane, workers, releases), true) ==
      if controlPlane == [] then 0 else |releases|
  {
    var phases := PhaseBlocks(controlPlane, workers, releases);
    var size, applies := PhaseSize(|controlPlane|, |workers|), if controlPlane == [] then 0 else 1;
    forall i | 0 <= i < |phases|
      ensures Weight(phases[i], false) == size + (if i == 0 then 0 else 0)
      ensures Weight(phases[i], true) == applies + (if i == 0 then 0 else 0)
    {
      PhaseWeights(controlPlane, workers, releases[i]);
    }
    WeightOfBlocks(phases, false, size, 0);
    WeightOfBlocks(phases, true, applies, 0);
    WeightIsLength(RolloutCommands(controlPlane, workers, releases));
  }
}
