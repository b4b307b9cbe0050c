/** How far behind kubelets may be when a rollout starts. The skew policy allows three minors; the
    plan moves the apiservers before it looks at any kubelet. */
module KubeletLag {
  import opened NodeSteps
  import opened Rollout
  import opened Wrappers
  import Traces

  /** A cluster at minor `k` that the policy accepts, with nothing cordoned: the configuration and
      every apiserver at `k`, no package newer, kubelets up to three minors behind. */
  ghost predicate PolicyReady(s: Cluster, controlPlane: set<NodeName>, workers: set<NodeName>, k: int) {
    && controlPlane !! workers
    && s.apiserver.Keys == controlPlane && s.nodes.Keys == controlPlane + workers
    && (forall n {:trigger NodeAccepted(s, k, n)} :: n in s.nodes ==> NodeAccepted(s, k, n))
    && s.configured == k
  }

  ghost predicate NodeAccepted(s: Cluster, k: int, n: NodeName)
    requires n in s.nodes
  {
    && s.nodes[n].kubeadm <= k && s.nodes[n].kubelet <= k && !s.nodes[n].cordoned
    && k - 3 <= s.nodes[n].running <= k && (n in s.apiserver ==> s.apiserver[n] == k)
  }

  /** Some kubelet is as far behind as the policy allows. */
  ghost predicate Lagging(s: Cluster, k: int, x: NodeName) {
    x in s.nodes && s.nodes[x].running == k - 3
  }

  lemma PolicyReadyIsSafe(s: Cluster, controlPlane: set<NodeName>, workers: set<NodeName>, k: int)
    requires PolicyReady(s, controlPlane, workers, k)
    ensures Safe(s)
  {
    assert forall n :: n in s.nodes ==> NodeAccepted(s, k, n);
  }

  lemma ReadyUnlessLagging(s: Cluster, controlPlane: set<NodeName>, workers: set<NodeName>, k: int)
    requires PolicyReady(s, controlPlane, workers, k) && forall x :: !Lagging(s, k, x)
    ensures Ready(s, controlPlane, workers, k)
  {
    forall n | n in s.nodes
      ensures NodeBetween(s, k, {}, n)
    {
      assert NodeAccepted(s, k, n) && !Lagging(s, k, n);
    }
  }

  // ---------------------------------------------------------------- the kubelet that runs is never asked

  /** The same cluster, but for the kubelets that run. */
  ghost predicate Twins(s: Cluster, t: Cluster) {
    && s.apiserver == t.apiserver && s.configured == t.configured && s.nodes.Keys == t.nodes.Keys
    && forall n {:trigger TwinNode(s, t, n)} :: n in s.nodes && n in t.nodes ==> TwinNode(s, t, n)
  }

  ghost predicate TwinNode(s: Cluster, t: Cluster, n: NodeName)
    requires n in s.nodes && n in t.nodes
  {
    s.nodes[n] == t.nodes[n].(running := s.nodes[n].running)
  }

  ghost predicate TwinViews(v: View, w: View) {
    v == w.(node := w.node.(running := v.node.running))
  }

  lemma TwinEffect(v: View, w: View, c: Command)
    requires TwinViews(v, w)
    ensures Effect(v, c).Some? <==> Effect(w, c).Some?
    ensures Effect(v, c).Some? ==> TwinViews(Effect(v, c).value, Effect(w, c).value)
  {
  }

  lemma TwinStep(s: Cluster, t: Cluster, c: Command)
    requires Twins(s, t) && Step(t, c).Some?
    ensures Step(s, c).Some? && Twins(Step(s, c).value, Step(t, c).value)
  {
    assert TwinNode(s, t, c.node);
    TwinEffect(Look(s, c.node), Look(t, c.node), c);
    var a, b := Step(s, c).value, Step(t, c).value;
    forall n | n in a.nodes && n in b.nodes
      ensures TwinNode(a, b, n)
    {
      if n != c.node {
        assert TwinNode(s, t, n);
      }
    }
  }

  lemma {:induction false} TwinRun(s: Cluster, t: Cluster, commands: seq<Command>)
    requires Twins(s, t) && Run(t, commands).Some?
    ensures Run(s, commands).Some? && Twins(Run(s, commands).value, Run(t, commands).value)
    decreases |commands|
  {
    if commands == [] {
    } else {
      var n := |commands| - 1;
      TwinRun(s, t, commands[..n]);
      TwinStep(Run(s, commands[..n]).value, Run(t, commands[..n]).value, commands[n]);
    }
  }

  /** A kubelet runs on as it is until it is restarted. */
  lemma {:induction false} RunsOn(s: Cluster, commands: seq<Command>, x: NodeName)
    requires x in s.nodes && RestartKubelet(x) !in commands && Run(s, commands).Some?
    ensures x in Run(s, commands).value.nodes && Run(s, commands).value.nodes[x].running == s.nodes[x].running
    decreases |commands|
  {
    if commands == [] {
    } else {
      var n := |commands| - 1;
      RunsOn(s, commands[..n], x);
      StepRunsOn(Run(s, commands[..n]).value, commands[n], x);
    }
  }

  lemma StepRunsOn(s: Cluster, c: Command, x: NodeName)
    requires x in s.nodes && c != RestartKubelet(x) && Step(s, c).Some?
    ensures x in Step(s, c).value.nodes && Step(s, c).value.nodes[x].running == s.nodes[x].running
  {
  }

  // ---------------------------------------------------------------- up to the apiserver of one node

  /** The commands of a control plane node up to its apiserver. */
  function Head(x: NodeName, first: bool, release: string): seq<Command> {
    if first then [ShowPlan(x), InstallKubeadm(x, release), UpgradeApply(x, release)]
    else [InstallKubeadm(x, release), UpgradeNode(x)]
  }

  function Tail(x: NodeName, release: string): seq<Command> {
    [InstallKubelet(x, release), RestartKubelet(x)]
  }

  /** All commands of a rollout up to the apiserver of control plane node `i`. */
  function UpTo(nodes: seq<NodeName>, release: string, i: nat): seq<Command>
    requires i < |nodes|
  {
    Traces.Join(ControlPlaneBlocks(nodes, release)[..i]) + Head(nodes[i], i == 0, release)
  }

  lemma UpToBlock(nodes: seq<NodeName>, release: string, i: nat)
    requires i < |nodes|
    ensures UpTo(nodes, release, i) + Tail(nodes[i], release) == Traces.Join(ControlPlaneBlocks(nodes, release)[..i + 1])
  {
    var blocks := ControlPlaneBlocks(nodes, release);
    assert blocks[..i + 1][..i] == blocks[..i];
    assert blocks[i] == Head(nodes[i], i == 0, release) + Tail(nodes[i], release);
  }

  lemma {:induction false} JoinPrefix(blocks: seq<seq<Command>>, i: nat)
    requires i <= |blocks|
    ensures Traces.Join(blocks[..i]) <= Traces.Join(blocks)
    decreases |blocks|
  {
    if i == |blocks| {
      assert blocks[..i] == blocks;
    } else {
      var n := |blocks| - 1;
      assert blocks[..n][..i] == blocks[..i];
      JoinPrefix(blocks[..n], i);
    }
  }

  lemma UpToIsPrefix(controlPlane: seq<NodeName>, workers: seq<NodeName>, releases: seq<string>, i: nat)
    requires i < |controlPlane| && releases != []
    ensures UpTo(controlPlane, releases[0], i) <= RolloutCommands(controlPlane, workers, releases)
  {
    var release, blocks := releases[0], ControlPlaneBlocks(controlPlane, releases[0]);
    UpToBlock(controlPlane, release, i);
    JoinPrefix(blocks, i + 1);
    FlattenSteps(controlPlane, release);
    var phases := PhaseBlocks(controlPlane, workers, releases);
    Traces.JoinStarts(phases);
    PrefixTransitive(UpTo(controlPlane, release, i), Traces.Join(blocks[..i + 1]), Traces.Join(blocks));
    PrefixTransitive(UpTo(controlPlane, release, i), Traces.Join(blocks), phases[0]);
    PrefixTransitive(UpTo(controlPlane, release, i), phases[0], Traces.Join(phases));
  }

  /** The last two commands of a node leave the apiservers alone. */
  lemma TailKeepsApiservers(s: Cluster, commands: seq<Command>, x: NodeName, release: string)
    requires Run(s, commands + Tail(x, release)).Some?
    ensures Run(s, commands).Some? && Run(s, commands).value.apiserver == Run(s, commands + Tail(x, release)).value.apiserver
  {
    var all := commands + Tail(x, release);
    var n := |commands|;
    assert all[..n + 1][..n] == commands && all[..n + 1] == all[..|all|-1];
    assert all[n] == InstallKubelet(x, release) && all[n + 1] == RestartKubelet(x);
    assert Run(s, all[..n + 1]).Some?;
    assert Run(s, commands).Some?;
    KubeletStep(Run(s, commands).value, all[n]);
    KubeletStep(Run(s, all[..n + 1]).value, all[n + 1]);
  }

  lemma KubeletStep(s: Cluster, c: Command)
    requires (c.InstallKubelet? || c.RestartKubelet?) && Step(s, c).Some?
    ensures Step(s, c).value.apiserver == s.apiserver
  {
  }

  // ---------------------------------------------------------------- a node not yet reached

  lemma {:induction false} NoRestartBefore(nodes: seq<NodeName>, release: string, i: nat, x: NodeName)
    requires i <= |nodes| && forall j :: 0 <= j < i ==> nodes[j] != x
    ensures RestartKubelet(x) !in Traces.Join(ControlPlaneBlocks(nodes, release)[..i])
    decreases i
  {
    if i == 0 {
    } else {
      var blocks := ControlPlaneBlocks(nodes, release);
      NoRestartBefore(nodes, release, i - 1, x);
      assert blocks[..i][..i - 1] == blocks[..i - 1];
      assert RestartKubelet(x) !in ControlPlaneCommands(nodes[i - 1], i - 1 == 0, release);
    }
  }

  /** A Ready cluster that differs from `s` only in the kubelets that run. */
  ghost function CaughtUp(s: Cluster, k: int): Cluster {
    Cluster(s.apiserver, map n | n in s.nodes :: n := s.nodes[n].(running := k), s.configured)
  }

  lemma CaughtUpReady(s: Cluster, controlPlane: set<NodeName>, workers: set<NodeName>, k: int)
    requires PolicyReady(s, controlPlane, workers, k)
    ensures Twins(s, CaughtUp(s, k)) && Ready(CaughtUp(s, k), controlPlane, workers, k)
  {
    var t := CaughtUp(s, k);
    forall n | n in t.nodes
      ensures NodeBetween(t, k, {}, n) && TwinNode(s, t, n)
    {
      assert NodeAccepted(s, k, n);
    }
  }

  /** After the commands up to the apiserver of node `i`, that apiserver is one minor on. */
  lemma ApiserverMoved(s: Cluster, nodes: seq<NodeName>, workers: set<NodeName>, k: int, release: string, i: nat)
    requires Distinct(nodes) && i < |nodes| && ReleaseMinor(release) == Some(k + 1)
    requires PolicyReady(s, Names(nodes), workers, k)
    ensures Run(s, UpTo(nodes, release, i)).Some?
    ensures nodes[i] in Run(s, UpTo(nodes, release, i)).value.apiserver
    ensures Run(s, UpTo(nodes, release, i)).value.apiserver[nodes[i]] == k + 1
  {
    var t := CaughtUp(s, k);
    CaughtUpReady(s, Names(nodes), workers, k);
    var u := ControlPlanePrefix(t, nodes, workers, k, release, i + 1);
    Traces.ReachesRuns(Step, GoodStep, t, Traces.Join(ControlPlaneBlocks(nodes, release)[..i + 1]), u);
    UpToBlock(nodes, release, i);
    TailKeepsApiservers(t, UpTo(nodes, release, i), nodes[i], release);
    TwinRun(s, t, UpTo(nodes, release, i));
    FirstGrows(nodes, i);
    assert NodeBetween(u, k, First(nodes, i + 1), nodes[i]);
  }

  /** The control plane node whose apiserver leaves a lagging node behind: its own, or the first. */
  lemma LeavesBehind(s: Cluster, controlPlane: seq<NodeName>, workers: set<NodeName>, k: int, release: string, x: NodeName)
    returns (i: nat)
    requires Distinct(controlPlane) && controlPlane != [] && ReleaseMinor(release) == Some(k + 1)
    requires PolicyReady(s, Names(controlPlane), workers, k) && Lagging(s, k, x)
    ensures i < |controlPlane| && Run(s, UpTo(controlPlane, release, i)).Some?
    ensures !Safe(Run(s, UpTo(controlPlane, release, i)).value)
  {
    i := 0;
    if x in Names(controlPlane) {
      i := FirstIndex(controlPlane, |controlPlane|, x);
    }
    var commands := UpTo(controlPlane, release, i);
    ApiserverMoved(s, controlPlane, workers, k, release, i);
    NotRestarted(controlPlane, release, i, x);
    RunsOn(s, commands, x);
    var t := Run(s, commands).value;
    RunKeepsNames(s, commands);
    assert !KubeletSupported(t, x, controlPlane[i]);
  }

  lemma NotRestarted(controlPlane: seq<NodeName>, release: string, i: nat, x: NodeName)
    requires Distinct(controlPlane) && i < |controlPlane| && (i == 0 || controlPlane[i] == x)
    ensures RestartKubelet(x) !in UpTo(controlPlane, release, i)
  {
    forall j | 0 <= j < i
      ensures controlPlane[j] != x
    {
      assert SameNode(controlPlane, i, j) ==> i == j;
    }
    NoRestartBefore(controlPlane, release, i, x);
  }

  // ---------------------------------------------------------------- exactly when

  /** After every number of commands of the rollout the cluster is safe. */
  ghost predicate SafeThroughout(s: Cluster, commands: seq<Command>) {
    forall n :: 0 <= n <= |commands| ==> SafeAfter(s, commands, n)
  }

  ghost predicate SafeAfter(s: Cluster, commands: seq<Command>, n: nat)
    requires n <= |commands|
  {
    Run(s, commands[..n]).Some? && Safe(Run(s, commands[..n]).value)
  }

  /** From a cluster that the policy accepts, with a control plane node and something to do, a
      rollout is safe throughout exactly when no kubelet is already three minors behind. The plan
      does not check this. */
  lemma SafeIffNoneLags(s: Cluster, controlPlane: seq<NodeName>, workers: seq<NodeName>, k: int, releases: seq<string>)
    requires Distinct(controlPlane) && Distinct(workers) && controlPlane != [] && releases != []
    requires PolicyReady(s, Names(controlPlane), Names(workers), k) && Consecutive(releases, k)
    ensures Safe(s)
    ensures SafeThroughout(s, RolloutCommands(controlPlane, workers, releases)) <==> forall x :: !Lagging(s, k, x)
  {
    var commands := RolloutCommands(controlPlane, workers, releases);
    PolicyReadyIsSafe(s, Names(controlPlane), Names(workers), k);
    if forall x :: !Lagging(s, k, x) {
      ReadyUnlessLagging(s, Names(controlPlane), Names(workers), k);
      forall n: nat | n <= |commands|
        ensures SafeAfter(s, commands, n)
      {
        EveryPrefixIsSafe(s, controlPlane, workers, k, releases, n);
      }
    }
    if x :| Lagging(s, k, x) {
      var i := LeavesBehind(s, controlPlane, Names(workers), k, releases[0], x);
      UpToIsPrefix(controlPlane, workers, releases, i);
      var n := |UpTo(controlPlane, releases[0], i)|;
      assert commands[..n] == UpTo(controlPlane, releases[0], i);
      assert !SafeAfter(s, commands, n);
    }
  }
}
