/** Compatibility of the installed components along the path: `gather_components`,
    `evaluate_compatibility`, `summarize_compatibility`. */
module Compatibility {
  import opened Ranking
  import opened Retriever
  import opened Versions
  import opened Wrappers

  /** Severity order of the summary. */
  function Rank(s: Status): nat {
    match s
    case Compatible => 0
    case Unknown => 1
    case Warning => 2
    case Incompatible => 3
  }

  datatype Software = Software(name: string, version: Option<string>)

  /** The facts of the first node that take part in the check. */
  datatype NodeFacts = NodeFacts(runtime: Option<string>, runtimeVersion: Option<string>,
                                 os: Option<string>, osVersion: Option<string>,
                                 kernel: Option<string>, cgroup: Option<string>)

  /** The RAG documents and the source's text normalisations, as far as verdicts depend on them. */
  datatype Rules = Rules(entries: seq<Entry>, lower: string -> string, slug: string -> string)

  function Offer(name: Option<string>, component: string, version: Option<string>): seq<Software> {
    if Truthy(name) then [Software(component, version)] else []
  }

  function OrEmpty(o: Option<string>): string {
    if o.Some? then o.value else ""
  }

  function NodeOffers(slug: string -> string, n: NodeFacts): seq<Software> {
    Offer(n.runtime, slug(OrEmpty(n.runtime)), n.runtimeVersion)
    + Offer(n.os, slug(OrEmpty(n.os)), n.osVersion)
    + Offer(n.kernel, "kernel", n.kernel)
    + Offer(n.cgroup, "cgroup", n.cgroup)
  }

  function InventoryOffers(slug: string -> string, inventory: seq<Software>): (offers: seq<Software>)
    ensures |offers| == |inventory|
  {
    seq(|inventory|, i requires 0 <= i < |inventory| => Software(slug(inventory[i].name), inventory[i].version))
  }

  function Offers(slug: string -> string, inventory: seq<Software>, primary: Option<NodeFacts>): seq<Software> {
    InventoryOffers(slug, inventory) + if primary.Some? then NodeOffers(slug, primary.value) else []
  }

  function NameOf(c: Software): string {
    c.name
  }

  /** `setdefault` keeps the first value: every later offer ties. */
  function Tie(c: Software): int {
    0
  }

  /** One component per slug, with the version first offered. */
  function Components(slug: string -> string, inventory: seq<Software>, primary: Option<NodeFacts>): seq<Software> {
    Rows(Offers(slug, inventory, primary), NameOf, Tie)
  }

  /** `components.setdefault(name, version)`, skipped when the node does not report `name`. */
  function SetDefault(d: Dict<string, Software>, name: Option<string>, component: string, version: Option<string>)
    : Dict<string, Software>
  {
    if !Truthy(name) || component in d.at then d else Put(d, component, Software(component, version))
  }

  lemma SetDefaultHolds(d: Dict<string, Software>, seen: seq<Software>, name: Option<string>, component: string, version: Option<string>)
    requires Holds(d, seen, NameOf, Tie)
    ensures Holds(SetDefault(d, name, component, version), seen + Offer(name, component, version), NameOf, Tie)
  {
    HoldsNext(d, seen, Software(component, version), NameOf, Tie);
    assert seen + [] == seen;
  }

  /** `gather_components`. */
  method GatherComponents(slug: string -> string, inventory: seq<Software>, primary: Option<NodeFacts>)
    returns (components: seq<Software>)
    ensures components == Components(slug, inventory, primary)
  {
    var d := Empty();
    HoldsEmpty(NameOf, Tie);
    ghost var offers := InventoryOffers(slug, inventory);
    for i := 0 to |inventory|
      invariant Holds(d, offers[..i], NameOf, Tie)
    {
      var c := Software(slug(inventory[i].name), inventory[i].version);
      HoldsNext(d, offers[..i], c, NameOf, Tie);
      if c.name !in d.at {
        d := Put(d, c.name, c);
      }
      assert offers[..i + 1] == offers[..i] + [c];
    }
    assert offers[..|inventory|] == offers;
    if primary.Some? {
      d := GatherNode(slug, primary.value, d, offers);
    } else {
      assert offers + [] == offers;
    }
    HoldsRows(d, Offers(slug, inventory, primary), NameOf, Tie);
    components := Values(d);
  }

  method GatherNode(slug: string -> string, n: NodeFacts, d: Dict<string, Software>, ghost seen: seq<Software>)
    returns (e: Dict<string, Software>)
    requires Holds(d, seen, NameOf, Tie)
    ensures Holds(e, seen + NodeOffers(slug, n), NameOf, Tie)
  {
    e := GatherFact(d, seen, n.runtime, slug(OrEmpty(n.runtime)), n.runtimeVersion);
    ghost var a := Offer(n.runtime, slug(OrEmpty(n.runtime)), n.runtimeVersion);
    e := GatherFact(e, seen + a, n.os, slug(OrEmpty(n.os)), n.osVersion);
    ghost var b := Offer(n.os, slug(OrEmpty(n.os)), n.osVersion);
    e := GatherFact(e, seen + a + b, n.kernel, "kernel", n.kernel);
    ghost var c := Offer(n.kernel, "kernel", n.kernel);
    e := GatherFact(e, seen + a + b + c, n.cgroup, "cgroup", n.cgroup);
    Regroup(seen, a, b, c, Offer(n.cgroup, "cgroup", n.cgroup));
  }

  lemma Regroup<T>(s: seq<T>, a: seq<T>, b: seq<T>, c: seq<T>, d: seq<T>)
    ensures s + a + b + c + d == s + (a + b + c + d)
  {
  }

  method GatherFact(d: Dict<string, Software>, ghost seen: seq<Software>, name: Option<string>, component: string, version: Option<string>)
    returns (e: Dict<string, Software>)
    requires Holds(d, seen, NameOf, Tie)
    ensures Holds(e, seen + Offer(name, component, version), NameOf, Tie)
  {
    SetDefaultHolds(d, seen, name, component, version);
    e := SetDefault(d, name, component, version);
  }

  /** Each slug once, in order of first mention, with the version of its first mention. */
  lemma ComponentsFirstWins(slug: string -> string, inventory: seq<Software>, primary: Option<NodeFacts>)
    ensures var offers, components := Offers(slug, inventory, primary), Components(slug, inventory, primary);
      && (forall i, j :: 0 <= i < j < |components| ==> components[i].name != components[j].name)
      && (forall p :: FirstWithKey(offers, NameOf, p) ==> offers[p] in components)
      && (forall c :: c in components ==> exists p :: FirstWithKey(offers, NameOf, p) && offers[p] == c)
  {
    var offers, components := Offers(slug, inventory, primary), Components(slug, inventory, primary);
    RowsExact(offers, NameOf, Tie);
    forall p | FirstWithKey(offers, NameOf, p)
      ensures offers[p] in components
    {
      var i := RowAbove(offers, NameOf, Tie, p);
      KeyHasBest(offers, NameOf, Tie, offers[p].name);
      FirstTies(offers, offers[p].name, p);
      assert components[i] == offers[p];
    }
    forall c | c in components
      ensures exists p :: FirstWithKey(offers, NameOf, p) && offers[p] == c
    {
      var i :| 0 <= i < |components| && components[i] == c;
      KeyHasBest(offers, NameOf, Tie, c.name);
      var p := BestAt(offers, NameOf, Tie, c.name);
      FirstTies(offers, c.name, p);
    }
  }

  /** With every score tied, the best is the first. */
  lemma FirstTies(offers: seq<Software>, name: string, p: nat)
    requires p < |offers| && offers[p].name == name
    ensures FirstWithKey(offers, NameOf, p) <==> FirstArgmax(offers, NameOf, Tie, name, p)
    ensures FirstWithKey(offers, NameOf, p) ==> Best(offers, NameOf, Tie, name) == Some(offers[p])
  {
    BestIsFirstArgmax(offers, NameOf, Tie, name, offers[p]);
  }

  // ---------------------------------------------------------------- which version is asked about

  /** Inventory item `i` is the first of that slug. */
  ghost predicate FirstListed(slug: string -> string, inventory: seq<Software>, name: string, i: int) {
    && 0 <= i < |inventory| && slug(inventory[i].name) == name
    && forall j :: 0 <= j < i ==> slug(inventory[j].name) != name
  }

  ghost predicate NotListed(slug: string -> string, inventory: seq<Software>, name: string) {
    forall j :: 0 <= j < |inventory| ==> slug(inventory[j].name) != name
  }

  /** What a node reports under a name: the runtime's version under the slug of the runtime, that
      of the operating system under its slug, and the kernel and cgroup versions by themselves. */
  ghost predicate NodeReports(slug: string -> string, n: NodeFacts, name: string, version: Option<string>) {
    if Truthy(n.runtime) && slug(n.runtime.value) == name then version == n.runtimeVersion
    else if Truthy(n.os) && slug(n.os.value) == name then version == n.osVersion
    else if Truthy(n.kernel) && name == "kernel" then version == n.kernel
    else Truthy(n.cgroup) && name == "cgroup" && version == n.cgroup
  }

  lemma {:induction false} BestOfTies(offers: seq<Software>, name: string)
    ensures Best(offers, NameOf, Tie, name) ==
      if offers == [] then None
      else if offers[0].name == name then Some(offers[0])
      else Best(offers[1..], NameOf, Tie, name)
  {
    if offers == [] {
    } else {
      BestConcat([offers[0]], offers[1..], NameOf, Tie, name);
      assert [offers[0]] + offers[1..] == offers;
      assert [offers[0]][..0] == [];
      assert Best([offers[0]], NameOf, Tie, name) == Only(offers[0], NameOf, name);
    }
  }

  lemma OfferedUnder(name: Option<string>, component: string, version: Option<string>, rest: seq<Software>, asked: string)
    ensures Best(Offer(name, component, version) + rest, NameOf, Tie, asked) ==
      if Truthy(name) && component == asked then Some(Software(component, version)) else Best(rest, NameOf, Tie, asked)
  {
    var offers := Offer(name, component, version) + rest;
    BestOfTies(offers, asked);
    if Truthy(name) {
      assert offers[1..] == rest;
    } else {
      assert offers == rest;
    }
  }

  lemma OsFirst(slug: string -> string, n: NodeFacts, name: string, best: Option<Software>)
    requires best == Best(Offer(n.os, slug(OrEmpty(n.os)), n.osVersion) + (Offer(n.kernel, "kernel", n.kernel) + Offer(n.cgroup, "cgroup", n.cgroup)),
                          NameOf, Tie, name)
    ensures best ==
      if Truthy(n.os) && slug(OrEmpty(n.os)) == name then Some(Software(name, n.osVersion))
      else if Truthy(n.kernel) && "kernel" == name then Some(Software(name, n.kernel))
      else if Truthy(n.cgroup) && "cgroup" == name then Some(Software(name, n.cgroup))
      else None
  {
    var d := Offer(n.cgroup, "cgroup", n.cgroup);
    assert d + [] == d;
    OfferedUnder(n.cgroup, "cgroup", n.cgroup, [], name);
    OfferedUnder(n.kernel, "kernel", n.kernel, d, name);
    OfferedUnder(n.os, slug(OrEmpty(n.os)), n.osVersion, Offer(n.kernel, "kernel", n.kernel) + d, name);
  }

  lemma NodeBest(slug: string -> string, n: NodeFacts, name: string, version: Option<string>)
    ensures Best(NodeOffers(slug, n), NameOf, Tie, name) == Some(Software(name, version)) <==> NodeReports(slug, n, name, version)
    ensures Best(NodeOffers(slug, n), NameOf, Tie, name).Some? ==> Best(NodeOffers(slug, n), NameOf, Tie, name).value.name == name
  {
    var a := Offer(n.runtime, slug(OrEmpty(n.runtime)), n.runtimeVersion);
    var b := Offer(n.os, slug(OrEmpty(n.os)), n.osVersion);
    var c := Offer(n.kernel, "kernel", n.kernel);
    var d := Offer(n.cgroup, "cgroup", n.cgroup);
    Regrouped(a, b, c, d);
    OfferedUnder(n.runtime, slug(OrEmpty(n.runtime)), n.runtimeVersion, b + (c + d), name);
    OsFirst(slug, n, name, Best(b + (c + d), NameOf, Tie, name));
    FirstFact(slug, n, name, version, Best(NodeOffers(slug, n), NameOf, Tie, name));
  }

  lemma Regrouped<T>(a: seq<T>, b: seq<T>, c: seq<T>, d: seq<T>)
    ensures a + b + c + d == a + (b + (c + d))
  {
  }

  lemma FirstFact(slug: string -> string, n: NodeFacts, name: string, version: Option<string>, found: Option<Software>)
    requires found ==
      if Truthy(n.runtime) && slug(OrEmpty(n.runtime)) == name then Some(Software(name, n.runtimeVersion))
      else if Truthy(n.os) && slug(OrEmpty(n.os)) == name then Some(Software(name, n.osVersion))
      else if Truthy(n.kernel) && "kernel" == name then Some(Software(name, n.kernel))
      else if Truthy(n.cgroup) && "cgroup" == name then Some(Software(name, n.cgroup))
      else None
    ensures found == Some(Software(name, version)) <==> NodeReports(slug, n, name, version)
    ensures found.Some? ==> found.value.name == name
  {
  }

  lemma {:induction false} InventoryBest(slug: string -> string, inventory: seq<Software>, name: string, i: nat)
    ensures FirstListed(slug, inventory, name, i) ==>
      Best(InventoryOffers(slug, inventory), NameOf, Tie, name) == Some(Software(name, inventory[i].version))
    ensures NotListed(slug, inventory, name) ==> Best(InventoryOffers(slug, inventory), NameOf, Tie, name).None?
    decreases |inventory|
  {
    var offers := InventoryOffers(slug, inventory);
    BestOfTies(offers, name);
    if inventory == [] {
    } else {
      var rest := inventory[1..];
      assert offers[1..] == InventoryOffers(slug, rest);
      InventoryBest(slug, rest, name, if i > 0 then i - 1 else 0);
      assert forall j :: 0 <= j < |rest| ==> rest[j] == inventory[j + 1];
    }
  }

  /** Which version of a component is asked about: that of its first mention in the inventory, and
      only without one what the first node reports; and nothing else is asked about. */
  lemma ComponentVersion(slug: string -> string, inventory: seq<Software>, primary: Option<NodeFacts>, name: string, version: Option<string>)
    ensures forall i :: FirstListed(slug, inventory, name, i) ==>
      (Software(name, version) in Components(slug, inventory, primary) <==> version == inventory[i].version)
    ensures NotListed(slug, inventory, name) ==>
      (Software(name, version) in Components(slug, inventory, primary) <==>
         primary.Some? && NodeReports(slug, primary.value, name, version))
  {
    var offers, mine := Offers(slug, inventory, primary), InventoryOffers(slug, inventory);
    InComponents(slug, inventory, primary, name, version);
    var theirs := if primary.Some? then NodeOffers(slug, primary.value) else [];
    BestConcat(mine, theirs, NameOf, Tie, name);
    assert offers == mine + theirs;
    InventoryBest(slug, inventory, name, 0);
    if primary.Some? {
      NodeBest(slug, primary.value, name, version);
    }
    forall i | FirstListed(slug, inventory, name, i)
      ensures Software(name, version) in Components(slug, inventory, primary) <==> version == inventory[i].version
    {
      InventoryBest(slug, inventory, name, i);
    }
  }

  lemma InComponents(slug: string -> string, inventory: seq<Software>, primary: Option<NodeFacts>, name: string, version: Option<string>)
    ensures Software(name, version) in Components(slug, inventory, primary) <==>
      Best(Offers(slug, inventory, primary), NameOf, Tie, name) == Some(Software(name, version))
  {
    var offers, components, c := Offers(slug, inventory, primary), Components(slug, inventory, primary), Software(name, version);
    RowsExact(offers, NameOf, Tie);
    KeyHasBest(offers, NameOf, Tie, name);
    if Best(offers, NameOf, Tie, name) == Some(c) {
      var i := BestAt(offers, NameOf, Tie, name);
      var j := RowAbove(offers, NameOf, Tie, i);
    }
  }

  // ---------------------------------------------------------------- evaluation

  /** Whom to ask about a component at a minor. */
  type Oracle = (Software, string) -> Answer

  function Asking(rules: Rules): Oracle {
    (c: Software, minor: string) => Lookup(rules.lower, rules.entries, Query(c.name, c.version, minor))
  }

  /** Answers name the component they were asked about. */
  ghost predicate NamesComponent(ask: Oracle) {
    forall c, minor :: ask(c, minor).component == c.name
  }

  lemma AskingNames(rules: Rules)
    ensures NamesComponent(Asking(rules))
  {
  }

  /** The answers for one component, minor by minor. */
  function Along(ask: Oracle, c: Software, minors: seq<string>): (answers: seq<Answer>)
    ensures |answers| == |minors|
    ensures forall i :: 0 <= i < |answers| ==> answers[i] == ask(c, minors[i])
  {
    seq(|minors|, i requires 0 <= i < |minors| => ask(c, minors[i]))
  }

  function AskedAll(ask: Oracle, components: seq<Software>, minors: seq<string>): seq<Answer> {
    if components == [] then []
    else AskedAll(ask, components[..|components|-1], minors) + Along(ask, components[|components|-1], minors)
  }

  /** `evaluate_compatibility`; None stands for the IndexError of a path entry without a dot. */
  function Evaluate(rules: Rules, inventory: seq<Software>, primary: Option<NodeFacts>, path: seq<string>): Option<seq<Answer>> {
    match TargetMinors(path)
    case None => None
    case Some(minors) => Some(AskedAll(Asking(rules), Components(rules.slug, inventory, primary), minors))
  }

  method EvaluateCompatibility(rules: Rules, inventory: seq<Software>, primary: Option<NodeFacts>, path: seq<string>)
    returns (r: Option<seq<Answer>>)
    ensures r == Evaluate(rules, inventory, primary, path)
  {
    var targets := TargetMinors(path);
    if targets.None? {
      return None;
    }
    var minors := targets.value;
    var components := GatherComponents(rules.slug, inventory, primary);
    var results := AskEach(Asking(rules), components, minors);
    r := Some(results);
  }

  /** The nested loops over components and minors. */
  method AskEach(ask: Oracle, components: seq<Software>, minors: seq<string>) returns (results: seq<Answer>)
    ensures results == AskedAll(ask, components, minors)
  {
    results := [];
    for i := 0 to |components|
      invariant results == AskedAll(ask, components[..i], minors)
    {
      ghost var before := results;
      ghost var along := Along(ask, components[i], minors);
      for j := 0 to |minors|
        invariant results == before + along[..j]
      {
        results := results + [ask(components[i], minors[j])];
      }
      assert along[..|minors|] == along;
      assert components[..i + 1][..i] == components[..i];
    }
    assert components[..|components|] == components;
  }

  lemma {:induction false} AskedExactly(ask: Oracle, components: seq<Software>, minors: seq<string>, a: Answer)
    ensures a in AskedAll(ask, components, minors) <==> exists c, minor :: c in components && minor in minors && a == ask(c, minor)
    decreases |components|
  {
    if components == [] {
    } else {
      var n := |components| - 1;
      AskedExactly(ask, components[..n], minors, a);
      AlongExactly(ask, components[n], minors, a);
      LastOrBefore(components);
    }
  }

  lemma AlongExactly(ask: Oracle, c: Software, minors: seq<string>, a: Answer)
    ensures a in Along(ask, c, minors) <==> exists minor :: minor in minors && a == ask(c, minor)
  {
    if minor :| minor in minors && a == ask(c, minor) {
      var j :| 0 <= j < |minors| && minors[j] == minor;
      assert Along(ask, c, minors)[j] == a;
    }
  }

  lemma LastOrBefore(components: seq<Software>)
    requires components != []
    ensures forall c :: c in components <==> c in components[..|components|-1] || c == components[|components|-1]
  {
    assert components == components[..|components|-1] + [components[|components|-1]];
  }

  /** The results are exactly the rulings on every component, in the version it was gathered with,
      at every minor of the path. */
  lemma EveryRuling(rules: Rules, inventory: seq<Software>, primary: Option<NodeFacts>, path: seq<string>,
                    minors: seq<string>, results: seq<Answer>, a: Answer)
    requires TargetMinors(path) == Some(minors) && Evaluate(rules, inventory, primary, path) == Some(results)
    ensures a in results <==>
      && Software(a.component, a.version) in Components(rules.slug, inventory, primary) && a.minor in minors
      && a == Lookup(rules.lower, rules.entries, Query(a.component, a.version, a.minor))
  {
    var ask, components := Asking(rules), Components(rules.slug, inventory, primary);
    AskedExactly(ask, components, minors, a);
    forall c, minor
      ensures ask(c, minor).component == c.name && ask(c, minor).version == c.version && ask(c, minor).minor == minor
    {
    }
    if a in results {
      var c, minor :| c in components && minor in minors && a == ask(c, minor);
      assert Software(a.component, a.version) == c;
    } else if Software(a.component, a.version) in components && a.minor in minors {
      assert a != ask(Software(a.component, a.version), a.minor);
    }
  }

  // ---------------------------------------------------------------- summary

  function ComponentOf(a: Answer): string {
    a.component
  }

  function StatusScore(a: Answer): int {
    Rank(a.status)
  }

  function Summary(results: seq<Answer>): seq<Answer> {
    Rows(results, ComponentOf, StatusScore)
  }

  /** `summarize_compatibility`. */
  method SummarizeCompatibility(results: seq<Answer>) returns (summary: seq<Answer>)
    ensures summary == Summary(results)
  {
    var best := Empty();
    HoldsEmpty(ComponentOf, StatusScore);
    for i := 0 to |results|
      invariant Holds(best, results[..i], ComponentOf, StatusScore)
    {
      var r := results[i];
      HoldsNext(best, results[..i], r, ComponentOf, StatusScore);
      if r.component !in best.at || Rank(r.status) > Rank(best.at[r.component].status) {
        best := Put(best, r.component, r);
      }
      assert results[..i + 1] == results[..i] + [r];
    }
    assert results[..|results|] == results;
    HoldsRows(best, results, ComponentOf, StatusScore);
    summary := Values(best);
  }

  /** Minor `j` is the first at which component `c` is at its worst. */
  ghost predicate WorstFirst(ask: Oracle, c: Software, minors: seq<string>, j: int) {
    && 0 <= j < |minors|
    && (forall n :: 0 <= n < |minors| ==> Rank(ask(c, minors[n]).status) <= Rank(ask(c, minors[j]).status))
    && (forall n :: 0 <= n < j ==> Rank(ask(c, minors[n]).status) < Rank(ask(c, minors[j]).status))
  }

  ghost predicate DistinctNames(components: seq<Software>) {
    forall i, j :: 0 <= i < j < |components| ==> components[i].name != components[j].name
  }

  /** `row` is the answer for `c` at the first minor where it is at its worst. */
  ghost predicate RowOf(ask: Oracle, c: Software, minors: seq<string>, row: Answer) {
    exists j :: WorstFirst(ask, c, minors, j) && row == ask(c, minors[j])
  }

  /** The summary has one row per component, in order. */
  lemma SummaryPerComponent(ask: Oracle, components: seq<Software>, minors: seq<string>)
    requires NamesComponent(ask) && minors != [] && DistinctNames(components)
    ensures |Summary(AskedAll(ask, components, minors))| == |components|
    ensures forall i :: 0 <= i < |components| ==> RowOf(ask, components[i], minors, Summary(AskedAll(ask, components, minors))[i])
  {
    var results := AskedAll(ask, components, minors);
    KeysOfAsked(ask, components, minors);
    forall i | 0 <= i < |components|
      ensures RowOf(ask, components[i], minors, Summary(results)[i])
    {
      var c := components[i];
      BestOfAsked(ask, components, minors, i);
      AlongHas(ask, c, minors, c.name);
      var j := BestAt(Along(ask, c, minors), ComponentOf, StatusScore, c.name);
      WorstIsArgmax(ask, c, minors, j);
    }
  }

  lemma WorstIsArgmax(ask: Oracle, c: Software, minors: seq<string>, j: int)
    requires NamesComponent(ask) && FirstArgmax(Along(ask, c, minors), ComponentOf, StatusScore, c.name, j)
    ensures WorstFirst(ask, c, minors, j)
  {
    var answers := Along(ask, c, minors);
    forall n | 0 <= n < |minors|
      ensures ComponentOf(answers[n]) == c.name && StatusScore(answers[n]) == Rank(ask(c, minors[n]).status)
    {
    }
    forall n | 0 <= n < |minors|
      ensures Rank(ask(c, minors[n]).status) <= Rank(ask(c, minors[j]).status)
      ensures n < j ==> Rank(ask(c, minors[n]).status) < Rank(ask(c, minors[j]).status)
    {
      assert StatusScore(answers[n]) == Rank(ask(c, minors[n]).status);
    }
  }

  lemma KeysOfAlong(ask: Oracle, before: seq<Answer>, c: Software, minors: seq<string>)
    requires NamesComponent(ask)
    ensures Keys(before + Along(ask, c, minors), ComponentOf) ==
      if minors == [] || c.name in Keys(before, ComponentOf) then Keys(before, ComponentOf) else Keys(before, ComponentOf) + [c.name]
  {
    KeysOfBlock(before, Along(ask, c, minors), ComponentOf, c.name);
  }

  function NamesOf(components: seq<Software>): (names: seq<string>)
    ensures |names| == |components|
    ensures forall i :: 0 <= i < |names| ==> names[i] == components[i].name
  {
    seq(|components|, i requires 0 <= i < |components| => components[i].name)
  }

  lemma LastNameNew(components: seq<Software>)
    requires components != [] && DistinctNames(components)
    ensures DistinctNames(components[..|components|-1])
    ensures components[|components|-1].name !in NamesOf(components[..|components|-1])
    ensures NamesOf(components) == NamesOf(components[..|components|-1]) + [components[|components|-1].name]
  {
  }

  lemma {:induction false} KeysOfAsked(ask: Oracle, components: seq<Software>, minors: seq<string>)
    requires NamesComponent(ask) && minors != [] && DistinctNames(components)
    ensures Keys(AskedAll(ask, components, minors), ComponentOf) == NamesOf(components)
    decreases |components|
  {
    if components == [] {
    } else {
      var n := |components| - 1;
      LastNameNew(components);
      KeysOfAsked(ask, components[..n], minors);
      KeysOfAlong(ask, AskedAll(ask, components[..n], minors), components[n], minors);
    }
  }

  lemma AlongHas(ask: Oracle, c: Software, minors: seq<string>, name: string)
    requires NamesComponent(ask) && minors != []
    ensures Best(Along(ask, c, minors), ComponentOf, StatusScore, name).Some? <==> name == c.name
  {
    var answers := Along(ask, c, minors);
    KeysOfAlong(ask, [], c, minors);
    assert [] + answers == answers;
    KeyHasBest(answers, ComponentOf, StatusScore, name);
  }

  lemma AskedHas(ask: Oracle, components: seq<Software>, minors: seq<string>, name: string)
    requires NamesComponent(ask) && minors != [] && DistinctNames(components)
    requires forall i :: 0 <= i < |components| ==> components[i].name != name
    ensures Best(AskedAll(ask, components, minors), ComponentOf, StatusScore, name).None?
  {
    KeysOfAsked(ask, components, minors);
    KeyHasBest(AskedAll(ask, components, minors), ComponentOf, StatusScore, name);
  }

  /** Other components do not touch a component's best answer. */
  lemma {:induction false} BestOfAsked(ask: Oracle, components: seq<Software>, minors: seq<string>, i: nat)
    requires NamesComponent(ask) && minors != [] && DistinctNames(components) && i < |components|
    ensures Best(AskedAll(ask, components, minors), ComponentOf, StatusScore, components[i].name) ==
      Best(Along(ask, components[i], minors), ComponentOf, StatusScore, components[i].name)
    decreases |components|
  {
    var n, name := |components| - 1, components[i].name;
    LastNameNew(components);
    if i < n {
      AlongHas(ask, components[n], minors, name);
      assert components[n].name != components[i].name;
      BestOfAsked(ask, components[..n], minors, i);
      BestBefore(AskedAll(ask, components[..n], minors), Along(ask, components[n], minors), name);
    } else {
      AskedHas(ask, components[..n], minors, name);
      BestBefore(AskedAll(ask, components[..n], minors), Along(ask, components[n], minors), name);
    }
  }

  lemma BestBefore(before: seq<Answer>, last: seq<Answer>, name: string)
    ensures Best(last, ComponentOf, StatusScore, name).None? ==>
      Best(before + last, ComponentOf, StatusScore, name) == Best(before, ComponentOf, StatusScore, name)
    ensures Best(before, ComponentOf, StatusScore, name).None? ==>
      Best(before + last, ComponentOf, StatusScore, name) == Best(last, ComponentOf, StatusScore, name)
  {
    BestConcat(before, last, ComponentOf, StatusScore, name);
  }

  /** End to end: one row per component slug, in order of first mention, with the answer for
      the version first mentioned, at the first minor of the path where that answer is worst. */
  lemma SummaryIsWorstFirst(rules: Rules, inventory: seq<Software>, primary: Option<NodeFacts>,
                            current: string, target: string, path: seq<string>)
    requires UpgradePath(current, target) == Ok(path)
    ensures Evaluate(rules, inventory, primary, path).Some? && TargetMinors(path).Some?
    ensures var table, components := Summary(Evaluate(rules, inventory, primary, path).value), Components(rules.slug, inventory, primary);
      && |table| == |components|
      && forall i :: 0 <= i < |table| ==> RowOf(Asking(rules), components[i], TargetMinors(path).value, table[i])
  {
    PathMinors(current, target, path, ParseVersion(current).value, ParseVersion(target).value);
    AskingNames(rules);
    ComponentsFirstWins(rules.slug, inventory, primary);
    SummaryPerComponent(Asking(rules), Components(rules.slug, inventory, primary), TargetMinors(path).value);
  }
}
