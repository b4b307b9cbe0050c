/** What the commands of an upgrade plan do to a cluster, and what every prefix of every plan
    keeps. The standard is the Kubernetes Version Skew Policy, section "Supported version
    skew", at minor granularity. */
module Rollout {
  import opened NodeSteps
  import opened Wrappers
  import Traces
  import Versions

  /** Minors of a node's packages: the kubeadm and kubelet packages installed, the kubelet
      process running, and whether the node takes no new pods. */
  datatype Node = Node(kubeadm: int, kubelet: int, running: int, cordoned: bool)

  /** `apiserver` has one entry per control plane node; `configured` is the version in the
      cluster-wide kubeadm configuration, which `kubeadm upgrade node` follows. */
  datatype Cluster = Cluster(apiserver: map<NodeName, int>, nodes: map<NodeName, Node>, configured: int)

  /** What a command run on one node sees and changes; `api` is 0 on a worker. */
  datatype View = View(isControlPlane: bool, api: int, node: Node, configured: int)

  function Look(s: Cluster, x: NodeName): View
    requires x in s.nodes
  {
    View(x in s.apiserver, if x in s.apiserver then s.apiserver[x] else 0, s.nodes[x], s.configured)
  }

  function Touched(s: Cluster, x: NodeName, v: View): Cluster {
    Cluster(if x in s.apiserver then s.apiserver[x := v.api] else s.apiserver, s.nodes[x := v.node], v.configured)
  }

  /** The minor a printed release stands for. */
  function ReleaseMinor(release: string): Option<int> {
    match Versions.MinorTuple(release)
    case None => None
    case Some(p) => Some(p.1)
  }

  /** `dnf install` of a package: refuses to go back. */
  function Installed(current: int, release: string): Option<int> {
    match ReleaseMinor(release)
    case None => None
    case Some(m) => if current <= m then Some(m) else None
  }

  /** One command on its node. None means the tool refuses: an unreadable release, a package
      downgrade, or kubeadm not at the version it is asked to bring about, or a skipped minor. */
  function Effect(v: View, c: Command): Option<View> {
    match c
    case ShowPlan(_) => Some(v)
    case InstallKubeadm(_, release) =>
      (match Installed(v.node.kubeadm, release)
       case None => None
       case Some(m) => Some(v.(node := v.node.(kubeadm := m))))
    case UpgradeApply(_, release) =>
      (match ReleaseMinor(release)
       case None => None
       case Some(m) =>
         if v.isControlPlane && v.node.kubeadm == m && v.configured <= m <= v.configured + 1 && v.api <= m
         then Some(v.(api := m, configured := m))
         else None)
    case UpgradeNode(_) =>
      if v.node.kubeadm != v.configured then None
      else if !v.isControlPlane then Some(v)
      else if v.api <= v.configured <= v.api + 1 then Some(v.(api := v.configured))
      else None
    case InstallKubelet(_, release) =>
      (match Installed(v.node.kubelet, release)
       case None => None
       case Some(m) => Some(v.(node := v.node.(kubelet := m))))
    case RestartKubelet(_) => Some(v.(node := v.node.(running := v.node.kubelet)))
    case Drain(_) => Some(v.(node := v.node.(cordoned := true)))
    case Uncordon(_) => Some(v.(node := v.node.(cordoned := false)))
  }

  /** One command on the cluster; an unknown node is refused too. */
  function Step(s: Cluster, c: Command): Option<Cluster> {
    if c.node !in s.nodes then None
    else
      match Effect(Look(s, c.node), c)
      case None => None
      case Some(v) => Some(Touched(s, c.node, v))
  }

  /** Running commands in order; None as soon as one is refused. */
  function Run(s: Cluster, commands: seq<Command>): Option<Cluster> {
    Traces.Run(Step, s, commands)
  }

  // ---------------------------------------------------------------- the policy

  /** Two apiservers are at most one minor apart. */
  ghost predicate ApiserversClose(s: Cluster, a: NodeName, b: NodeName)
    requires a in s.apiserver && b in s.apiserver
  {
    s.apiserver[a] <= s.apiserver[b] + 1
  }

  /** A kubelet is not newer than an apiserver, and at most three minors older. */
  ghost predicate KubeletSupported(s: Cluster, n: NodeName, a: NodeName)
    requires n in s.nodes && a in s.apiserver
  {
    s.nodes[n].running <= s.apiserver[a] <= s.nodes[n].running + 3
  }

  /** The skew policy. For a control plane node the kubelet bound is against its own apiserver;
      for a worker, against every apiserver. */
  ghost predicate SkewSafe(s: Cluster) {
    && s.apiserver.Keys <= s.nodes.Keys
    && (forall a, b {:trigger ApiserversClose(s, a, b)} :: a in s.apiserver && b in s.apiserver ==> ApiserversClose(s, a, b))
    && (forall n, a {:trigger KubeletSupported(s, n, a)} ::
          n in s.nodes && a in s.apiserver && (n == a || n !in s.apiserver) ==> KubeletSupported(s, n, a))
  }

  ghost predicate BothCordoned(s: Cluster, m: NodeName, n: NodeName) {
    m in s.nodes && n in s.nodes && s.nodes[m].cordoned && s.nodes[n].cordoned
  }

  /** At most one node is out of service at a time, and never a control plane node. */
  ghost predicate CordonsSafe(s: Cluster) {
    forall m, n {:trigger BothCordoned(s, m, n)} :: BothCordoned(s, m, n) ==> m == n && n !in s.apiserver
  }

  ghost predicate Safe(s: Cluster) {
    SkewSafe(s) && CordonsSafe(s)
  }

  /** What one command may do: nothing is downgraded or lost, nothing on a worker changes version,
      installed or running, but while the worker is cordoned, and an apiserver moves one minor at
      most, and only to the minor the node's kubeadm already has. */
  ghost predicate Lawful(s: Cluster, t: Cluster) {
    && t.nodes.Keys == s.nodes.Keys && t.apiserver.Keys == s.apiserver.Keys
    && (forall n {:trigger Look(t, n)} :: n in s.nodes ==> LawfulOnNode(Look(s, n), Look(t, n)))
  }

  ghost predicate SameVersions(m: Node, n: Node) {
    m.kubeadm == n.kubeadm && m.kubelet == n.kubelet && m.running == n.running
  }

  ghost predicate LawfulOnNode(v: View, w: View) {
    && v.configured <= w.configured
    && v.node.kubeadm <= w.node.kubeadm && v.node.kubelet <= w.node.kubelet && v.node.running <= w.node.running
    && (!v.isControlPlane && !SameVersions(v.node, w.node) ==> v.node.cordoned && w.node.cordoned)
    && v.api <= w.api <= v.api + 1
    && (v.api != w.api ==> v.node.kubeadm == w.api)
  }

  ghost predicate GoodStep(s: Cluster, c: Command, t: Cluster) {
    Safe(t) && Lawful(s, t)
  }

  /** No command is refused, every state on the way is safe, every step lawful; `t` at the end. */
  ghost predicate Leads(s: Cluster, commands: seq<Command>, t: Cluster) {
    Traces.Reaches(Step, GoodStep, s, commands, t)
  }

  // ---------------------------------------------------------------- states between node steps

  /** A cluster in the middle of the phase from minor `k` to `k + 1`: the nodes of `done` are
      completely at `k + 1`, all others are still at most at `k` with a kubelet at most two
      minors behind, and nothing is cordoned. */
  ghost predicate Between(s: Cluster, controlPlane: set<NodeName>, workers: set<NodeName>, k: int, done: set<NodeName>) {
    && controlPlane !! workers
    && s.apiserver.Keys == controlPlane && s.nodes.Keys == controlPlane + workers
    && (forall n {:trigger NodeBetween(s, k, done, n)} :: n in s.nodes ==> NodeBetween(s, k, done, n))
    && s.configured == (if controlPlane !! done then k else k + 1)
  }

  ghost predicate NodeBetween(s: Cluster, k: int, done: set<NodeName>, n: NodeName)
    requires n in s.nodes
  {
    if n in done
    then s.nodes[n] == Node(k + 1, k + 1, k + 1, false) && (n in s.apiserver ==> s.apiserver[n] == k + 1)
    else Behind(s.nodes[n], k) && (n in s.apiserver ==> s.apiserver[n] == k)
  }

  ghost predicate Behind(n: Node, k: int) {
    n.kubeadm <= k && n.kubelet <= k && k - 2 <= n.running <= k && !n.cordoned
  }

  /** The state a rollout from minor `k` expects: every apiserver and the configuration at `k`,
      no package newer than `k`, kubelets at most two minors behind, nothing cordoned. */
  ghost predicate Ready(s: Cluster, controlPlane: set<NodeName>, workers: set<NodeName>, k: int) {
    Between(s, controlPlane, workers, k, {})
  }

  /** Everything at minor `k`, nothing cordoned. */
  ghost predicate Converged(s: Cluster, controlPlane: set<NodeName>, workers: set<NodeName>, k: int) {
    && s.apiserver.Keys == controlPlane && s.nodes.Keys == controlPlane + workers && controlPlane !! workers
    && s.configured == k
    && (forall n :: n in controlPlane ==> s.apiserver[n] == k)
    && (forall n :: n in s.nodes ==> s.nodes[n] == Node(k, k, k, false))
  }

  lemma BetweenIsSafe(s: Cluster, controlPlane: set<NodeName>, workers: set<NodeName>, k: int, done: set<NodeName>)
    requires Between(s, controlPlane, workers, k, done)
    requires done <= controlPlane || controlPlane <= done
    ensures Safe(s)
  {
    assert forall n :: n in s.nodes ==> NodeBetween(s, k, done, n);
  }

  /** When every node is done, the phase has converged, and the next one may start. */
  lemma AllDone(s: Cluster, controlPlane: set<NodeName>, workers: set<NodeName>, k: int)
    requires Between(s, controlPlane, workers, k, controlPlane + workers) && controlPlane != {}
    ensures Converged(s, controlPlane, workers, k + 1) && Ready(s, controlPlane, workers, k + 1)
  {
    assert forall n :: n in s.nodes ==> NodeBetween(s, k, controlPlane + workers, n);
  }

  // ---------------------------------------------------------------- one node, seen alone

  /** Where a node may be while it is upgraded from `k` to `k + 1`: a control plane node between
      its old and new apiserver with a kubelet not newer; a worker with a kubelet not newer than
      `k + 1`, which is safe because the control plane is done by then. */
  ghost predicate Midway(k: int, v: View) {
    if v.isControlPlane
    then k <= v.api <= k + 1 && k - 2 <= v.node.running <= v.api && !v.node.cordoned
    else v.api == 0 && k - 2 <= v.node.running <= k + 1
  }

  ghost function MidwayStep(k: int): (View, Command, View) -> bool {
    (v: View, c: Command, w: View) => LawfulOnNode(v, w) && Midway(k, w)
  }

  /** The commands take the node from `v` to `w`, lawfully and midway all along. */
  ghost predicate Brings(k: int, v: View, commands: seq<Command>, w: View) {
    Traces.Reaches(Effect, MidwayStep(k), v, commands, w)
  }

  lemma BringsMore(k: int, v: View, commands: seq<Command>, m: View, c: Command, w: View)
    requires Brings(k, v, commands, m)
    requires Effect(m, c) == Some(w) && LawfulOnNode(m, w) && Midway(k, w)
    ensures Brings(k, v, commands + [c], w)
  {
    Traces.ReachesStep(Effect, MidwayStep(k), v, commands, m, c, w);
  }

  lemma RefreshKubelet(k: int, v: View, commands: seq<Command>, m: View, x: NodeName, release: string)
    requires Brings(k, v, commands, m) && Midway(k, m)
    requires ReleaseMinor(release) == Some(k + 1)
    requires m.node.kubelet <= k + 1
    requires if m.isControlPlane then m.api == k + 1 else m.node.cordoned
    ensures Brings(k, v, commands + [InstallKubelet(x, release), RestartKubelet(x)],
                   m.(node := m.node.(kubelet := k + 1, running := k + 1)))
  {
    var w := m.(node := m.node.(kubelet := k + 1));
    BringsMore(k, v, commands, m, InstallKubelet(x, release), w);
    BringsMore(k, v, commands + [InstallKubelet(x, release)], w, RestartKubelet(x), w.(node := w.node.(running := k + 1)));
    assert commands + [InstallKubelet(x, release)] + [RestartKubelet(x)]
        == commands + [InstallKubelet(x, release), RestartKubelet(x)];
  }

  lemma ControlPlaneNodeAlone(k: int, v: View, x: NodeName, first: bool, release: string)
    requires v.isControlPlane && v.api == k && Behind(v.node, k) && v.configured == (if first then k else k + 1)
    requires ReleaseMinor(release) == Some(k + 1)
    ensures Brings(k, v, ControlPlaneCommands(x, first, release), View(true, k + 1, Node(k + 1, k + 1, k + 1, false), k + 1))
  {
    var w1 := v.(node := v.node.(kubeadm := k + 1));
    var w2 := w1.(api := k + 1, configured := k + 1);
    var cs: seq<Command> := [];
    Traces.ReachesNothing(Effect, MidwayStep(k), v);
    if first {
      BringsMore(k, v, cs, v, ShowPlan(x), v);
      cs := cs + [ShowPlan(x)];
    }
    BringsMore(k, v, cs, v, InstallKubeadm(x, release), w1);
    cs := cs + [InstallKubeadm(x, release)];
    var move := if first then UpgradeApply(x, release) else UpgradeNode(x);
    BringsMore(k, v, cs, w1, move, w2);
    cs := cs + [move];
    RefreshKubelet(k, v, cs, w2, x, release);
    assert cs + [InstallKubelet(x, release), RestartKubelet(x)] == ControlPlaneCommands(x, first, release);
  }

  lemma WorkerNodeAlone(k: int, v: View, x: NodeName, release: string)
    requires !v.isControlPlane && v.api == 0 && Behind(v.node, k) && v.configured == k + 1
    requires ReleaseMinor(release) == Some(k + 1)
    ensures Brings(k, v, WorkerCommands(x, release), View(false, 0, Node(k + 1, k + 1, k + 1, false), k + 1))
  {
    var w1 := v.(node := v.node.(cordoned := true));
    var w2 := w1.(node := w1.node.(kubeadm := k + 1));
    var w3 := w2.(node := w2.node.(kubelet := k + 1, running := k + 1));
    var cs: seq<Command> := [];
    Traces.ReachesNothing(Effect, MidwayStep(k), v);
    BringsMore(k, v, cs, v, Drain(x), w1);
    cs := cs + [Drain(x)];
    BringsMore(k, v, cs, w1, InstallKubeadm(x, release), w2);
    cs := cs + [InstallKubeadm(x, release)];
    BringsMore(k, v, cs, w2, UpgradeNode(x), w2);
    cs := cs + [UpgradeNode(x)];
    RefreshKubelet(k, v, cs, w2, x, release);
    cs := cs + [InstallKubelet(x, release), RestartKubelet(x)];
    BringsMore(k, v, cs, w3, Uncordon(x), w3.(node := w3.node.(cordoned := false)));
    assert cs + [Uncordon(x)] == WorkerCommands(x, release);
  }

  // ---------------------------------------------------------------- one node in its cluster

  /** A worker may be touched only once the whole control plane is done. */
  ghost predicate MayTouch(s: Cluster, controlPlane: set<NodeName>, done: set<NodeName>, x: NodeName) {
    x in s.nodes && x !in done && if x in controlPlane then done <= controlPlane else controlPlane <= done
  }

  lemma TouchedSkew(s: Cluster, controlPlane: set<NodeName>, workers: set<NodeName>, k: int, done: set<NodeName>, x: NodeName, v: View)
    requires Between(s, controlPlane, workers, k, done)
    requires MayTouch(s, controlPlane, done, x) && Midway(k, v) && v.isControlPlane == (x in s.apiserver)
    ensures SkewSafe(Touched(s, x, v))
  {
    var t := Touched(s, x, v);
    assert forall n :: n in s.nodes ==> NodeBetween(s, k, done, n);
    assert forall a :: a in controlPlane ==> k <= t.apiserver[a] <= k + 1;
    if x in controlPlane {
      assert forall n :: n in workers ==> t.nodes[n] == s.nodes[n] && k - 2 <= t.nodes[n].running <= k;
    } else {
      assert forall a :: a in controlPlane ==> t.apiserver[a] == k + 1;
    }
  }

  lemma TouchedCordons(s: Cluster, controlPlane: set<NodeName>, workers: set<NodeName>, k: int, done: set<NodeName>, x: NodeName, v: View)
    requires Between(s, controlPlane, workers, k, done)
    requires MayTouch(s, controlPlane, done, x) && Midway(k, v) && v.isControlPlane == (x in s.apiserver)
    ensures CordonsSafe(Touched(s, x, v))
  {
    var t := Touched(s, x, v);
    assert forall n :: n in s.nodes ==> NodeBetween(s, k, done, n);
    assert forall n :: n in s.nodes && n != x ==> t.nodes[n] == s.nodes[n] && !t.nodes[n].cordoned;
  }

  ghost predicate Fits(s: Cluster, x: NodeName, v: View) {
    x in s.nodes && v.isControlPlane == (x in s.apiserver) && (x !in s.apiserver ==> v.api == 0)
  }

  lemma TouchedLook(s: Cluster, x: NodeName, v: View, w: View)
    requires Fits(s, x, v)
    ensures Look(Touched(s, x, v), x) == v
    ensures Touched(Touched(s, x, v), x, w) == Touched(s, x, w)
  {
    var t := Touched(Touched(s, x, v), x, w);
    assert t.nodes == s.nodes[x := w.node];
  }

  lemma TouchedStep(s: Cluster, x: NodeName, v: View, c: Command, w: View)
    requires Fits(s, x, v) && c.node == x && Effect(v, c) == Some(w)
    ensures Step(Touched(s, x, v), c) == Some(Touched(s, x, w))
  {
    TouchedLook(s, x, v, w);
  }

  lemma TouchedLawful(s: Cluster, x: NodeName, v: View, w: View)
    requires Fits(s, x, v) && Fits(s, x, w)
    requires s.apiserver.Keys <= s.nodes.Keys && LawfulOnNode(v, w)
    ensures Lawful(Touched(s, x, v), Touched(s, x, w))
  {
    var m, t := Touched(s, x, v), Touched(s, x, w);
    forall n | n in m.nodes
      ensures LawfulOnNode(Look(m, n), Look(t, n))
    {
      TouchedLook(s, x, v, v);
      TouchedLook(s, x, w, w);
    }
  }

  lemma EffectKeepsRole(v: View, c: Command, w: View)
    requires Effect(v, c) == Some(w)
    ensures v.isControlPlane == w.isControlPlane
  {
  }

  lemma LiftOne(s: Cluster, controlPlane: set<NodeName>, workers: set<NodeName>, k: int, done: set<NodeName>,
                x: NodeName, v: View, c: Command, w: View)
    requires Between(s, controlPlane, workers, k, done) && MayTouch(s, controlPlane, done, x)
    requires Fits(s, x, v) && c.node == x && Effect(v, c) == Some(w) && LawfulOnNode(v, w) && Midway(k, w)
    ensures Fits(s, x, w)
    ensures Step(Touched(s, x, v), c) == Some(Touched(s, x, w))
    ensures GoodStep(Touched(s, x, v), c, Touched(s, x, w))
  {
    EffectKeepsRole(v, c, w);
    TouchedStep(s, x, v, c, w);
    TouchedSkew(s, controlPlane, workers, k, done, x, w);
    TouchedCordons(s, controlPlane, workers, k, done, x, w);
    TouchedLawful(s, x, v, w);
  }

  /** What the commands do to the node alone, they do to the cluster, safely. */
  lemma Lift(s: Cluster, controlPlane: set<NodeName>, workers: set<NodeName>, k: int, done: set<NodeName>,
             x: NodeName, commands: seq<Command>, w: View)
    requires Between(s, controlPlane, workers, k, done) && MayTouch(s, controlPlane, done, x)
    requires forall i :: 0 <= i < |commands| ==> commands[i].node == x
    requires Brings(k, Look(s, x), commands, w)
    ensures Leads(s, commands, Touched(s, x, w))
  {
    var views :| Traces.IsTrace(Effect, MidwayStep(k), views, commands) && views[0] == Look(s, x) && views[|commands|] == w;
    var states := seq(|views|, i requires 0 <= i < |views| => Touched(s, x, views[i]));
    forall i: nat | i < |commands|
      ensures Traces.StepAt(Step, GoodStep, states, commands, i)
    {
      TraceFits(s, k, x, commands, views, i);
      assert Traces.StepAt(Effect, MidwayStep(k), views, commands, i);
      LiftOne(s, controlPlane, workers, k, done, x, views[i], commands[i], views[i + 1]);
    }
    assert Touched(s, x, Look(s, x)) == s;
    assert Traces.IsTrace(Step, GoodStep, states, commands);
  }

  lemma {:induction false} TraceFits(s: Cluster, k: int, x: NodeName, commands: seq<Command>, views: seq<View>, n: nat)
    requires x in s.nodes && n <= |commands|
    requires Traces.IsTrace(Effect, MidwayStep(k), views, commands) && views[0] == Look(s, x)
    ensures Fits(s, x, views[n])
  {
    if n == 0 {
    } else {
      TraceFits(s, k, x, commands, views, n - 1);
      assert Traces.StepAt(Effect, MidwayStep(k), views, commands, n - 1);
      EffectKeepsRole(views[n - 1], commands[n - 1], views[n]);
    }
  }

  lemma NodeFinished(s: Cluster, controlPlane: set<NodeName>, workers: set<NodeName>, k: int, done: set<NodeName>, x: NodeName, v: View)
    requires Between(s, controlPlane, workers, k, done) && x in s.nodes && x !in done
    requires x !in controlPlane ==> s.configured == k + 1
    requires v.node == Node(k + 1, k + 1, k + 1, false) && v.configured == k + 1 && (x in controlPlane ==> v.api == k + 1)
    ensures Between(Touched(s, x, v), controlPlane, workers, k, done + {x})
  {
    var t := Touched(s, x, v);
    forall n | n in t.nodes
      ensures NodeBetween(t, k, done + {x}, n)
    {
      assert NodeBetween(s, k, done, n);
    }
    if x !in controlPlane {
      var y :| y in controlPlane && y in done;
      assert y in done + {x};
    } else {
      assert x in controlPlane && x in done + {x};
    }
  }

  /** The commands of one control plane node take it from `k` to `k + 1`. */
  lemma ControlPlaneNode(s: Cluster, controlPlane: set<NodeName>, workers: set<NodeName>, k: int, done: set<NodeName>,
                         x: NodeName, first: bool, release: string) returns (t: Cluster)
    requires Between(s, controlPlane, workers, k, done)
    requires done <= controlPlane && x in controlPlane && x !in done
    requires ReleaseMinor(release) == Some(k + 1)
    requires first <==> done == {}
    ensures Leads(s, ControlPlaneCommands(x, first, release), t)
    ensures Between(t, controlPlane, workers, k, done + {x})
  {
    var w := View(true, k + 1, Node(k + 1, k + 1, k + 1, false), k + 1);
    assert NodeBetween(s, k, done, x);
    ControlPlaneNodeAlone(k, Look(s, x), x, first, release);
    Lift(s, controlPlane, workers, k, done, x, ControlPlaneCommands(x, first, release), w);
    t := Touched(s, x, w);
    NodeFinished(s, controlPlane, workers, k, done, x, w);
  }

  /** The commands of one worker take it from `k` to `k + 1`. */
  lemma WorkerNode(s: Cluster, controlPlane: set<NodeName>, workers: set<NodeName>, k: int, done: set<NodeName>,
                   x: NodeName, release: string) returns (t: Cluster)
    requires Between(s, controlPlane, workers, k, done)
    requires controlPlane != {} && controlPlane <= done && x in workers && x !in done
    requires ReleaseMinor(release) == Some(k + 1)
    ensures Leads(s, WorkerCommands(x, release), t)
    ensures Between(t, controlPlane, workers, k, done + {x})
  {
    var w := View(false, 0, Node(k + 1, k + 1, k + 1, false), k + 1);
    assert NodeBetween(s, k, done, x);
    WorkerNodeAlone(k, Look(s, x), x, release);
    Lift(s, controlPlane, workers, k, done, x, WorkerCommands(x, release), w);
    t := Touched(s, x, w);
    NodeFinished(s, controlPlane, workers, k, done, x, w);
  }

  // ---------------------------------------------------------------- whole phases

  /** The first `n` nodes of a list, as a set. */
  ghost function First(nodes: seq<NodeName>, n: nat): set<NodeName>
    requires n <= |nodes|
  {
    if n == 0 then {} else First(nodes, n - 1) + {nodes[n - 1]}
  }

  ghost function Names(nodes: seq<NodeName>): set<NodeName> {
    First(nodes, |nodes|)
  }

  ghost predicate SameNode(nodes: seq<NodeName>, i: nat, j: nat) {
    i < |nodes| && j < |nodes| && nodes[i] == nodes[j]
  }

  /** No node is listed twice. */
  ghost predicate Distinct(nodes: seq<NodeName>) {
    forall i: nat, j: nat {:trigger SameNode(nodes, i, j)} :: SameNode(nodes, i, j) ==> i == j
  }

  lemma {:induction false} FirstMembers(nodes: seq<NodeName>, n: nat, i: nat)
    requires i < n <= |nodes|
    ensures nodes[i] in First(nodes, n)
  {
    if i < n - 1 {
      FirstMembers(nodes, n - 1, i);
    }
  }

  lemma {:induction false} FirstIndex(nodes: seq<NodeName>, n: nat, x: NodeName) returns (i: nat)
    requires n <= |nodes| && x in First(nodes, n)
    ensures i < n && nodes[i] == x
  {
    if x == nodes[n - 1] {
      i := n - 1;
    } else {
      i := FirstIndex(nodes, n - 1, x);
    }
  }

  lemma FirstGrows(nodes: seq<NodeName>, n: nat)
    requires Distinct(nodes) && n < |nodes|
    ensures nodes[n] !in First(nodes, n) && nodes[n] in Names(nodes) && First(nodes, n) <= Names(nodes)
    ensures n == 0 <==> First(nodes, n) == {}
    ensures First(nodes, n + 1) == First(nodes, n) + {nodes[n]}
  {
    FirstMembers(nodes, |nodes|, n);
    if nodes[n] in First(nodes, n) {
      var i := FirstIndex(nodes, n, nodes[n]);
      assert SameNode(nodes, i, n);
    }
    forall x | x in First(nodes, n)
      ensures x in Names(nodes)
    {
      var i := FirstIndex(nodes, n, x);
      FirstMembers(nodes, |nodes|, i);
    }
    if n > 0 {
      FirstMembers(nodes, n, 0);
    }
  }

  lemma ControlPlaneNext(s: Cluster, nodes: seq<NodeName>, workers: set<NodeName>, k: int, release: string, i: nat, m: Cluster)
    returns (t: Cluster)
    requires Distinct(nodes) && i < |nodes| && ReleaseMinor(release) == Some(k + 1)
    requires Leads(s, Traces.Join(ControlPlaneBlocks(nodes, release)[..i]), m)
    requires Between(m, Names(nodes), workers, k, First(nodes, i))
    ensures Leads(s, Traces.Join(ControlPlaneBlocks(nodes, release)[..i + 1]), t)
    ensures Between(t, Names(nodes), workers, k, First(nodes, i + 1))
  {
    FirstGrows(nodes, i);
    t := ControlPlaneNode(m, Names(nodes), workers, k, First(nodes, i), nodes[i], i == 0, release);
    Traces.ReachesBlock(Step, GoodStep, s, ControlPlaneBlocks(nodes, release), i, m, t);
  }

  lemma {:induction false} ControlPlanePrefix(s: Cluster, nodes: seq<NodeName>, workers: set<NodeName>, k: int, release: string, n: nat)
    returns (t: Cluster)
    requires Distinct(nodes) && n <= |nodes|
    requires Ready(s, Names(nodes), workers, k) && ReleaseMinor(release) == Some(k + 1)
    ensures Leads(s, Traces.Join(ControlPlaneBlocks(nodes, release)[..n]), t)
    ensures Between(t, Names(nodes), workers, k, First(nodes, n))
    decreases n
  {
    if n == 0 {
      t := s;
      Traces.ReachesNothing(Step, GoodStep, s);
    } else {
      var m := ControlPlanePrefix(s, nodes, workers, k, release, n - 1);
      t := ControlPlaneNext(s, nodes, workers, k, release, n - 1, m);
    }
  }

  lemma ControlPlanePhase(s: Cluster, nodes: seq<NodeName>, workers: set<NodeName>, k: int, release: string)
    returns (t: Cluster)
    requires Distinct(nodes)
    requires Ready(s, Names(nodes), workers, k) && ReleaseMinor(release) == Some(k + 1)
    ensures Leads(s, Flatten(ControlPlaneSteps(nodes, release)), t)
    ensures Between(t, Names(nodes), workers, k, Names(nodes))
  {
    t := ControlPlanePrefix(s, nodes, workers, k, release, |nodes|);
    FlattenSteps(nodes, release);
    var blocks := ControlPlaneBlocks(nodes, release);
    assert blocks[..|nodes|] == blocks;
  }

  lemma WorkerNext(s: Cluster, controlPlane: set<NodeName>, nodes: seq<NodeName>, k: int, release: string, i: nat, m: Cluster)
    returns (t: Cluster)
    requires Distinct(nodes) && i < |nodes| && controlPlane != {} && ReleaseMinor(release) == Some(k + 1)
    requires Leads(s, Traces.Join(WorkerBlocks(nodes, release)[..i]), m)
    requires Between(m, controlPlane, Names(nodes), k, controlPlane + First(nodes, i))
    ensures Leads(s, Traces.Join(WorkerBlocks(nodes, release)[..i + 1]), t)
    ensures Between(t, controlPlane, Names(nodes), k, controlPlane + First(nodes, i + 1))
  {
    FirstGrows(nodes, i);
    var done := controlPlane + First(nodes, i);
    t := WorkerNode(m, controlPlane, Names(nodes), k, done, nodes[i], release);
    assert done + {nodes[i]} == controlPlane + First(nodes, i + 1);
    Traces.ReachesBlock(Step, GoodStep, s, WorkerBlocks(nodes, release), i, m, t);
  }

  lemma {:induction false} WorkerPrefix(s: Cluster, controlPlane: set<NodeName>, nodes: seq<NodeName>, k: int, release: string, n: nat)
    returns (t: Cluster)
    requires Distinct(nodes) && n <= |nodes| && controlPlane != {}
    requires Between(s, controlPlane, Names(nodes), k, controlPlane) && ReleaseMinor(release) == Some(k + 1)
    ensures Leads(s, Traces.Join(WorkerBlocks(nodes, release)[..n]), t)
    ensures Between(t, controlPlane, Names(nodes), k, controlPlane + First(nodes, n))
    decreases n
  {
    if n == 0 {
      t := s;
      Traces.ReachesNothing(Step, GoodStep, s);
      assert controlPlane + First(nodes, 0) == controlPlane;
    } else {
      var m := WorkerPrefix(s, controlPlane, nodes, k, release, n - 1);
      t := WorkerNext(s, controlPlane, nodes, k, release, n - 1, m);
    }
  }

  lemma WorkerPhase(s: Cluster, controlPlane: set<NodeName>, nodes: seq<NodeName>, k: int, release: string)
    returns (t: Cluster)
    requires Distinct(nodes) && controlPlane != {}
    requires Between(s, controlPlane, Names(nodes), k, controlPlane) && ReleaseMinor(release) == Some(k + 1)
    ensures Leads(s, Flatten(WorkerSteps(nodes, release)), t)
    ensures Between(t, controlPlane, Names(nodes), k, controlPlane + Names(nodes))
  {
    t := WorkerPrefix(s, controlPlane, nodes, k, release, |nodes|);
    FlattenSteps(nodes, release);
    var blocks := WorkerBlocks(nodes, release);
    assert blocks[..|nodes|] == blocks;
  }

  /** One phase takes a ready cluster from `k` to one that is ready at `k + 1`, safely. */
  lemma WholePhase(s: Cluster, controlPlane: seq<NodeName>, workers: seq<NodeName>, k: int, release: string)
    returns (t: Cluster)
    requires Distinct(controlPlane) && Distinct(workers) && controlPlane != []
    requires Ready(s, Names(controlPlane), Names(workers), k) && ReleaseMinor(release) == Some(k + 1)
    ensures Leads(s, PhaseCommands(controlPlane, workers, release), t)
    ensures Ready(t, Names(controlPlane), Names(workers), k + 1)
    ensures Converged(t, Names(controlPlane), Names(workers), k + 1)
  {
    FirstGrows(controlPlane, 0);
    var m := ControlPlanePhase(s, controlPlane, Names(workers), k, release);
    t := WorkerPhase(m, Names(controlPlane), workers, k, release);
    Traces.ReachesConcat(Step, GoodStep, s, Flatten(ControlPlaneSteps(controlPlane, release)), m,
                         Flatten(WorkerSteps(workers, release)), t);
    AllDone(t, Names(controlPlane), Names(workers), k);
  }

  /** The labels of a rollout: phase `i` brings minor `k + i + 1`. */
  ghost predicate Consecutive(releases: seq<string>, k: int) {
    forall i :: 0 <= i < |releases| ==> ReleaseMinor(releases[i]) == Some(k + i + 1)
  }

  lemma PhaseNext(s: Cluster, controlPlane: seq<NodeName>, workers: seq<NodeName>, k: int,
                  releases: seq<string>, i: nat, m: Cluster) returns (t: Cluster)
    requires Distinct(controlPlane) && Distinct(workers) && controlPlane != []
    requires i < |releases| && ReleaseMinor(releases[i]) == Some(k + i + 1)
    requires Leads(s, Traces.Join(PhaseBlocks(controlPlane, workers, releases)[..i]), m)
    requires Ready(m, Names(controlPlane), Names(workers), k + i)
    ensures Leads(s, Traces.Join(PhaseBlocks(controlPlane, workers, releases)[..i + 1]), t)
    ensures Ready(t, Names(controlPlane), Names(workers), k + i + 1)
    ensures Converged(t, Names(controlPlane), Names(workers), k + i + 1)
  {
    t := WholePhase(m, controlPlane, workers, k + i, releases[i]);
    Traces.ReachesBlock(Step, GoodStep, s, PhaseBlocks(controlPlane, workers, releases), i, m, t);
  }

  /** Safe throughout, and after `n` phases everything is exactly at minor `k + n`. */
  lemma {:induction false} RolloutPrefix(s: Cluster, controlPlane: seq<NodeName>, workers: seq<NodeName>, k: int,
                                         releases: seq<string>, n: nat) returns (t: Cluster)
    requires Distinct(controlPlane) && Distinct(workers) && controlPlane != [] && n <= |releases|
    requires Ready(s, Names(controlPlane), Names(workers), k) && Consecutive(releases, k)
    ensures Leads(s, Traces.Join(PhaseBlocks(controlPlane, workers, releases)[..n]), t)
    ensures Ready(t, Names(controlPlane), Names(workers), k + n)
    ensures n > 0 ==> Converged(t, Names(controlPlane), Names(workers), k + n)
    decreases n
  {
    if n == 0 {
      t := s;
      Traces.ReachesNothing(Step, GoodStep, s);
    } else {
      var m := RolloutPrefix(s, controlPlane, workers, k, releases, n - 1);
      t := PhaseNext(s, controlPlane, workers, k, releases, n - 1, m);
    }
  }

  lemma LeadsPrefix(s: Cluster, commands: seq<Command>, t: Cluster, n: nat)
    requires Leads(s, commands, t) && Safe(s) && n <= |commands|
    ensures Run(s, commands[..n]).Some? && Safe(Run(s, commands[..n]).value)
    ensures n < |commands| ==>
      Run(s, commands[..n + 1]).Some? && Lawful(Run(s, commands[..n]).value, Run(s, commands[..n + 1]).value)
  {
    if n < |commands| {
      Traces.ReachesPrefix(Step, GoodStep, s, commands, t, n);
    }
    if n > 0 {
      Traces.ReachesPrefix(Step, GoodStep, s, commands, t, n - 1);
    }
  }

  /** Safety of every prefix: after any number of commands of a rollout from a ready cluster, no
      command has been refused, the skew policy holds, at most one node is cordoned (never a
      control plane node), and the next command is lawful. */
  lemma EveryPrefixIsSafe(s: Cluster, controlPlane: seq<NodeName>, workers: seq<NodeName>, k: int, releases: seq<string>, n: nat)
    requires Distinct(controlPlane) && Distinct(workers) && controlPlane != []
    requires Ready(s, Names(controlPlane), Names(workers), k) && Consecutive(releases, k)
    requires n <= |RolloutCommands(controlPlane, workers, releases)|
    ensures
      var commands := RolloutCommands(controlPlane, workers, releases);
      && Run(s, commands[..n]).Some? && Safe(Run(s, commands[..n]).value)
      && (n < |commands| ==>
            Run(s, commands[..n + 1]).Some? && Lawful(Run(s, commands[..n]).value, Run(s, commands[..n + 1]).value))
  {
    var t := RolloutPrefix(s, controlPlane, workers, k, releases, |releases|);
    var phases := PhaseBlocks(controlPlane, workers, releases);
    assert phases[..|releases|] == phases;
    BetweenIsSafe(s, Names(controlPlane), Names(workers), k, {});
    LeadsPrefix(s, RolloutCommands(controlPlane, workers, releases), t, n);
  }

  // ---------------------------------------------------------------- the limits of the plan

  /** The stricter reading of the policy: no kubelet newer than any apiserver of the cluster. */
  ghost predicate StrictlySafe(s: Cluster) {
    forall n, a {:trigger KubeletNotNewer(s, n, a)} :: n in s.nodes && a in s.apiserver ==> KubeletNotNewer(s, n, a)
  }

  ghost predicate KubeletNotNewer(s: Cluster, n: NodeName, a: NodeName)
    requires n in s.nodes && a in s.apiserver
  {
    s.nodes[n].running <= s.apiserver[a]
  }

  lemma {:induction false} RunKeepsNames(s: Cluster, commands: seq<Command>)
    requires Run(s, commands).Some?
    ensures Run(s, commands).value.apiserver.Keys == s.apiserver.Keys
  {
    if commands == [] {
    } else {
      RunKeepsNames(s, commands[..|commands|-1]);
    }
  }

  /** A rollout starts with the commands of its first control plane node. */
  lemma StartsWithFirstNode(controlPlane: seq<NodeName>, workers: seq<NodeName>, releases: seq<string>)
    requires controlPlane != [] && releases != []
    ensures ControlPlaneCommands(controlPlane[0], true, releases[0]) <= RolloutCommands(controlPlane, workers, releases)
  {
    var phases := PhaseBlocks(controlPlane, workers, releases);
    var nodes := ControlPlaneBlocks(controlPlane, releases[0]);
    Traces.JoinStarts(phases);
    FlattenSteps(controlPlane, releases[0]);
    Traces.JoinStarts(nodes);
    PrefixTransitive(nodes[0], Traces.Join(nodes), phases[0]);
    PrefixTransitive(nodes[0], phases[0], Traces.Join(phases));
  }

  lemma PrefixTransitive(a: seq<Command>, b: seq<Command>, c: seq<Command>)
    requires a <= b <= c
    ensures a <= c
  {
  }

  /** After the first control plane node is done, its kubelet runs ahead of the second apiserver. */
  lemma FirstKubeletRunsAhead(s: Cluster, controlPlane: seq<NodeName>, workers: seq<NodeName>, k: int, releases: seq<string>)
    requires Distinct(controlPlane) && |controlPlane| >= 2 && releases != []
    requires Ready(s, Names(controlPlane), Names(workers), k) && Consecutive(releases, k)
    ensures
      var commands := RolloutCommands(controlPlane, workers, releases);
      |commands| >= 5 && Run(s, commands[..5]).Some? && !StrictlySafe(Run(s, commands[..5]).value)
  {
    var first, second := controlPlane[0], controlPlane[1];
    var commands, head := RolloutCommands(controlPlane, workers, releases), ControlPlaneCommands(first, true, releases[0]);
    StartsWithFirstNode(controlPlane, workers, releases);
    assert commands[..5] == head;
    FirstGrows(controlPlane, 0);
    FirstGrows(controlPlane, 1);
    var t := ControlPlaneNode(s, Names(controlPlane), Names(workers), k, {}, first, true, releases[0]);
    Traces.ReachesRuns(Step, GoodStep, s, head, t);
    assert !SameNode(controlPlane, 0, 1);
    assert NodeBetween(t, k, {} + {first}, first) && NodeBetween(t, k, {} + {first}, second);
    assert !KubeletNotNewer(t, first, second);
  }

  /** Exactly when the stricter reading holds on every prefix: there is only one control plane
      node, or nothing to do. The plan restarts the first kubelet before it moves the second
      apiserver, so with two or more nodes the stricter reading fails after five commands. */
  lemma StrictPolicyHolds(s: Cluster, controlPlane: seq<NodeName>, workers: seq<NodeName>, k: int, releases: seq<string>)
    requires Distinct(controlPlane) && Distinct(workers) && controlPlane != []
    requires Ready(s, Names(controlPlane), Names(workers), k) && Consecutive(releases, k)
    ensures
      (forall n :: 0 <= n <= |RolloutCommands(controlPlane, workers, releases)| ==>
         Run(s, RolloutCommands(controlPlane, workers, releases)[..n]).Some? &&
         StrictlySafe(Run(s, RolloutCommands(controlPlane, workers, releases)[..n]).value))
      <==> |controlPlane| == 1 || releases == []
  {
    var commands := RolloutCommands(controlPlane, workers, releases);
    if |controlPlane| == 1 || releases == [] {
      forall n | 0 <= n <= |commands|
        ensures Run(s, commands[..n]).Some? && StrictlySafe(Run(s, commands[..n]).value)
      {
        EveryPrefixIsSafe(s, controlPlane, workers, k, releases, n);
        RunKeepsNames(s, commands[..n]);
        if |controlPlane| == 1 {
          OneApiserverIsStrict(Run(s, commands[..n]).value, controlPlane);
        } else {
          ReadyIsStrict(s, Names(controlPlane), Names(workers), k);
        }
      }
    } else {
      FirstKubeletRunsAhead(s, controlPlane, workers, k, releases);
    }
  }

  lemma OneApiserverIsStrict(s: Cluster, controlPlane: seq<NodeName>)
    requires |controlPlane| == 1 && s.apiserver.Keys == Names(controlPlane) && Safe(s)
    ensures StrictlySafe(s)
  {
    forall n, a | n in s.nodes && a in s.apiserver
      ensures KubeletNotNewer(s, n, a)
    {
      var i := FirstIndex(controlPlane, 1, a);
      if n in s.apiserver {
        var j := FirstIndex(controlPlane, 1, n);
      }
      assert KubeletSupported(s, n, a);
    }
  }

  lemma ReadyIsStrict(s: Cluster, controlPlane: set<NodeName>, workers: set<NodeName>, k: int)
    requires Ready(s, controlPlane, workers, k)
    ensures StrictlySafe(s)
  {
    forall n, a | n in s.nodes && a in s.apiserver
      ensures KubeletNotNewer(s, n, a)
    {
      assert NodeBetween(s, k, {}, n) && NodeBetween(s, k, {}, a);
    }
  }

  /** Without control plane nodes a rollout starts with the commands of its first worker. */
  lemma StartsWithFirstWorker(workers: seq<NodeName>, releases: seq<string>)
    requires workers != [] && releases != []
    ensures WorkerCommands(workers[0], releases[0]) <= RolloutCommands([], workers, releases)
  {
    var phases := PhaseBlocks([], workers, releases);
    Traces.JoinStarts(phases);
    PhaseStartsWithWorker(workers, releases[0]);
    PrefixTransitive(WorkerCommands(workers[0], releases[0]), phases[0], Traces.Join(phases));
  }

  lemma PhaseStartsWithWorker(workers: seq<NodeName>, release: string)
    requires workers != []
    ensures WorkerCommands(workers[0], release) <= PhaseCommands([], workers, release)
  {
    var nodes := WorkerBlocks(workers, release);
    FlattenSteps(workers, release);
    Traces.JoinStarts(nodes);
    assert Flatten(ControlPlaneSteps([], release)) == [];
    assert PhaseCommands([], workers, release) == [] + Traces.Join(nodes);
  }

  /** A cluster whose control plane is not listed (a managed one): the plan still upgrades the
      workers, and is refused at the third command, because nobody has moved the configuration. */
  lemma WorkersAloneAreStuck(s: Cluster, workers: seq<NodeName>, k: int, releases: seq<string>)
    requires workers != [] && releases != []
    requires Ready(s, {}, Names(workers), k) && Consecutive(releases, k)
    ensures Run(s, RolloutCommands([], workers, releases)) == None
  {
    var x, release, commands := workers[0], releases[0], RolloutCommands([], workers, releases);
    StartsWithFirstWorker(workers, releases);
    WorkerAloneIsStuck(s, workers, k, release);
    assert commands[..3] == WorkerCommands(x, release)[..3] == [Drain(x), InstallKubeadm(x, release), UpgradeNode(x)];
    Traces.RunStuck(Step, s, commands, 3);
  }

  lemma WorkerAloneIsStuck(s: Cluster, workers: seq<NodeName>, k: int, release: string)
    requires workers != [] && Ready(s, {}, Names(workers), k) && ReleaseMinor(release) == Some(k + 1)
    ensures Run(s, [Drain(workers[0]), InstallKubeadm(workers[0], release), UpgradeNode(workers[0])]) == None
  {
    var x := workers[0];
    FirstMembers(workers, |workers|, 0);
    assert NodeBetween(s, k, {}, x);
    var v0 := Look(s, x);
    var v1 := v0.(node := v0.node.(cordoned := true));
    var v2 := v1.(node := v1.node.(kubeadm := k + 1));
    var s1, s2 := Touched(s, x, v1), Touched(s, x, v2);
    assert Touched(s, x, v0) == s;
    TouchedStep(s, x, v0, Drain(x), v1);
    TouchedStep(s, x, v1, InstallKubeadm(x, release), v2);
    TouchedLook(s, x, v2, v2);
    assert Step(s2, UpgradeNode(x)) == None;
    Traces.RefusedThird(Step, s, Drain(x), s1, InstallKubeadm(x, release), s2, UpgradeNode(x));
  }

  /** Exactly when a rollout from a ready cluster runs to its end: there is a control plane node
      to move first, or there is nothing to do. */
  lemma RolloutAccepted(s: Cluster, controlPlane: seq<NodeName>, workers: seq<NodeName>, k: int, releases: seq<string>)
    requires Distinct(controlPlane) && Distinct(workers)
    requires Ready(s, Names(controlPlane), Names(workers), k) && Consecutive(releases, k)
    ensures Run(s, RolloutCommands(controlPlane, workers, releases)).Some? <==>
      controlPlane != [] || workers == [] || releases == []
  {
    var commands := RolloutCommands(controlPlane, workers, releases);
    if controlPlane != [] {
      EveryPrefixIsSafe(s, controlPlane, workers, k, releases, |commands|);
      assert commands[..|commands|] == commands;
    } else if workers == [] || releases == [] {
      RolloutSize(controlPlane, workers, releases);
    } else {
      WorkersAloneAreStuck(s, workers, k, releases);
    }
  }
}
