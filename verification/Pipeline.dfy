/** The deterministic middle of an analysis: the nodes `check_compatibility`,
    `check_deprecated_api` and `analyze_risk`, in this order, and how their outcome moves with
    the evidence and with the target. */
module Pipeline {
  import Api = DeprecatedApi
  import Compat = Compatibility
  import opened ApiSummary
  import opened Ranking
  import opened Readiness
  import opened Traces
  import opened Versions
  import opened Wrappers
  import Retriever

  /** What the collectors deliver. `structural` are the risks drawn from the cluster alone
      (node consistency, custom configuration, etcd, HA, cgroup). */
  datatype Cluster = Cluster(inventory: seq<Compat.Software>, primary: Option<Compat.NodeFacts>,
                             observed: seq<Api.Observed>, structural: seq<Risk>)

  datatype Documents = Documents(matrix: seq<Retriever.Entry>, guide: seq<Api.Entry>)

  /** The text normalisations of the source: `str.lower` and `slugify_component`. */
  datatype Texts = Texts(lower: string -> string, slug: string -> string)

  datatype AnalysisError = NoPath(error: PathError) | BadGuideVersion

  datatype Analysis = Analysis(path: seq<string>, results: seq<Retriever.Answer>, findings: seq<Api.Finding>, risks: seq<Risk>)

  function RisksOf(structural: seq<Risk>, results: seq<Retriever.Answer>, findings: seq<Api.Finding>): seq<Risk> {
    structural + CompatRisks(Compat.Summary(results)) + ApiRisks(Summary(findings))
  }

  function Analyse(texts: Texts, docs: Documents, cluster: Cluster, current: string, target: string, pluto: seq<PlutoItem>)
    : Result<Analysis, AnalysisError>
  {
    match UpgradePath(current, target)
    case Err(e) => Err(NoPath(e))
    case Ok(path) =>
      match Compat.Evaluate(Compat.Rules(docs.matrix, texts.lower, texts.slug), cluster.inventory, cluster.primary, path)
      case None => Err(NoPath(MissingMinor))
      case Some(results) =>
        match Api.Evaluate(cluster.observed, docs.guide, path)
        case None => Err(BadGuideVersion)
        case Some(rag) =>
          var findings := Merged([rag, PlutoFindings(pluto, PlutoTarget(target))]);
          Ok(Analysis(path, results, findings, RisksOf(cluster.structural, results, findings)))
  }

  /** When there is no analysis: without an upgrade path, or with a guide that cannot be read. */
  lemma AnalysisFails(texts: Texts, docs: Documents, cluster: Cluster, current: string, target: string, pluto: seq<PlutoItem>)
    ensures var analysis, path := Analyse(texts, docs, cluster, current, target, pluto), UpgradePath(current, target);
      && (path.Err? ==> analysis == Err(NoPath(path.error)))
      && (path.Ok? && Api.Evaluate(cluster.observed, docs.guide, path.value).None? ==> analysis == Err(BadGuideVersion))
      && (path.Ok? && Api.Evaluate(cluster.observed, docs.guide, path.value).Some? ==> analysis.Ok? && analysis.value.path == path.value)
  {
    if UpgradePath(current, target).Ok? {
      PathMinors(current, target, UpgradePath(current, target).value, ParseVersion(current).value, ParseVersion(target).value);
    }
  }

  // ---------------------------------------------------------------- more evidence

  lemma CompatPointsGrow(a: seq<Retriever.Answer>, b: seq<Retriever.Answer>)
    requires forall x :: x in a ==> x in b
    ensures Sum(Compat.Summary(a), CompatWeight) <= Sum(Compat.Summary(b), CompatWeight)
  {
    MoreWeighsMore(a, b, Compat.ComponentOf, Compat.StatusScore, CompatWeight);
  }

  lemma ApiPointsGrow(a: seq<Api.Finding>, b: seq<Api.Finding>)
    requires forall x :: x in a ==> x in b
    ensures Sum(Summary(Rows(a, MergeKey, MergeScore)), ApiWeight) <= Sum(Summary(Rows(b, MergeKey, MergeScore)), ApiWeight)
  {
    var ma, mb := Rows(a, MergeKey, MergeScore), Rows(b, MergeKey, MergeScore);
    RowsExact(ma, ResourceOf, StatusScore);
    RowsExact(a, MergeKey, MergeScore);
    forall i
      ensures Outweighed(Summary(ma), Summary(mb), ResourceOf, ApiWeight, i)
    {
      if 0 <= i < |Summary(ma)| {
        assert Summary(ma)[i] in b;
        var p :| 0 <= p < |b| && b[p] == Summary(ma)[i];
        var r := WorstRow(b, p);
        assert ResourceOf(Summary(mb)[r]) == ResourceOf(Summary(ma)[i]);
      }
    }
    DominatedSum(Summary(ma), Summary(mb), ResourceOf, ApiWeight);
  }

  /** The table has a row for the resource of every raw finding, weighing at least as much. */
  lemma WorstRow(raw: seq<Api.Finding>, p: nat) returns (r: nat)
    requires p < |raw|
    ensures r < |Summary(Rows(raw, MergeKey, MergeScore))|
    ensures Summary(Rows(raw, MergeKey, MergeScore))[r].resource == raw[p].resource
    ensures ApiWeight(raw[p]) <= ApiWeight(Summary(Rows(raw, MergeKey, MergeScore))[r])
  {
    var merged := Rows(raw, MergeKey, MergeScore);
    var j := RowAbove(raw, MergeKey, MergeScore, p);
    r := RowAbove(merged, ResourceOf, StatusScore, j);
    assert MergeKey(merged[j]) == MergeKey(raw[p]);
    assert Api.Rank(raw[p].status) <= Api.Rank(merged[j].status);
  }

  lemma RiskPoints(structural: seq<Risk>, results: seq<Retriever.Answer>, findings: seq<Api.Finding>)
    ensures Points(RisksOf(structural, results, findings)) ==
      Points(structural) + Sum(Compat.Summary(results), CompatWeight) + Sum(Summary(findings), ApiWeight)
  {
    SumConcat(structural + CompatRisks(Compat.Summary(results)), ApiRisks(Summary(findings)), RiskWeight);
    SumConcat(structural, CompatRisks(Compat.Summary(results)), RiskWeight);
    CompatPoints(Compat.Summary(results));
    ApiPoints(Summary(findings));
  }

  /** Evidence only ever adds: with more raw compatibility results, more raw deprecated-API
      findings (from whatever scanner, in whatever order) and more structural risks, the
      complexity never falls and the score never rises. */
  lemma MoreEvidence(structural: seq<Risk>, results: seq<Retriever.Answer>, groups: seq<seq<Api.Finding>>,
                     moreRisks: seq<Risk>, moreResults: seq<Retriever.Answer>, moreGroups: seq<seq<Api.Finding>>)
    requires multiset(structural) <= multiset(moreRisks)
    requires forall r :: r in results ==> r in moreResults
    requires forall f :: f in Join(groups) ==> f in Join(moreGroups)
    ensures Complexity(RisksOf(structural, results, Merged(groups))) <= Complexity(RisksOf(moreRisks, moreResults, Merged(moreGroups)))
    ensures Score(RisksOf(structural, results, Merged(groups))) >= Score(RisksOf(moreRisks, moreResults, Merged(moreGroups)))
  {
    RiskPoints(structural, results, Merged(groups));
    RiskPoints(moreRisks, moreResults, Merged(moreGroups));
    SubsetSum(structural, moreRisks, RiskWeight);
    CompatPointsGrow(results, moreResults);
    ApiPointsGrow(Join(groups), Join(moreGroups));
  }

  // ---------------------------------------------------------------- a farther target

  lemma {:induction false} JudgedFarther(obs: Api.Observed, judge: string -> Option<Api.Status>, near: seq<string>, far: seq<string>)
    requires near != [] && near <= far && Api.Worsens(judge, far) && Api.Judged(obs, judge, near).Some?
    ensures Api.Judged(obs, judge, far).Some?
    ensures Api.Judged(obs, judge, near).value <= Api.Judged(obs, judge, far).value
    decreases |far|
  {
    if |near| == |far| {
      assert near == far;
    } else {
      var n := |far| - 1;
      forall i, j
        ensures Api.WorsensAt(judge, far[..n], i, j)
      {
        assert Api.WorsensAt(judge, far, i, j);
      }
      JudgedFarther(obs, judge, near, far[..n]);
      JudgedReadable(obs, judge, near);
      assert Api.WorsensAt(judge, far, 0, n);
    }
  }

  lemma {:induction false} JudgedReadable(obs: Api.Observed, judge: string -> Option<Api.Status>, minors: seq<string>)
    requires minors != [] && Api.Judged(obs, judge, minors).Some?
    ensures judge(minors[0]).Some?
  {
    if |minors| > 1 {
      JudgedReadable(obs, judge, minors[..|minors|-1]);
    }
  }

  lemma JudgedOneFarther(obs: Api.Observed, guide: seq<Api.Entry>, near: seq<string>, far: seq<string>)
    requires near != [] && near <= far && Ascending(far) && Api.JudgedOne(obs, guide, near).Some?
    ensures Api.JudgedOne(obs, guide, far).Some?
    ensures Api.JudgedOne(obs, guide, near).value <= Api.JudgedOne(obs, guide, far).value
  {
    var entry := Api.Lookup(guide, obs.resource.kind, obs.resource.apiVersion);
    if obs.resource.apiVersion != "" && entry.Some? {
      Api.PathWorsens(entry.value, obs.foundIn, far);
      JudgedFarther(obs, Api.Judge(entry.value, obs.foundIn), near, far);
    }
  }

  /** What is reported towards a nearer target is reported towards a farther one too, and the
      guide is readable towards the farther one if it was towards the nearer. */
  lemma {:induction false} JudgedAllFarther(observed: seq<Api.Observed>, guide: seq<Api.Entry>, near: seq<string>, far: seq<string>)
    requires near != [] && near <= far && Ascending(far) && Api.JudgedAll(observed, guide, near).Some?
    ensures Api.JudgedAll(observed, guide, far).Some?
    ensures forall f :: f in Api.JudgedAll(observed, guide, near).value ==> f in Api.JudgedAll(observed, guide, far).value
    decreases |observed|
  {
    if observed == [] {
    } else {
      JudgedAllFarther(observed[..|observed|-1], guide, near, far);
      JudgedOneFarther(observed[|observed|-1], guide, near, far);
    }
  }

  lemma {:induction false} AskedAllFarther(ask: Compat.Oracle, components: seq<Compat.Software>, near: seq<string>, far: seq<string>)
    requires near <= far
    ensures forall a :: a in Compat.AskedAll(ask, components, near) ==> a in Compat.AskedAll(ask, components, far)
    decreases |components|
  {
    if components == [] {
    } else {
      AskedAllFarther(ask, components[..|components|-1], near, far);
      var c := components[|components|-1];
      assert Compat.Along(ask, c, near) <= Compat.Along(ask, c, far);
    }
  }

  /** Whether moving from `near` to `far` never makes the analysis fail or the upgrade look
      simpler, for any documents and cluster, with pluto skipped. */
  ghost predicate NeverSimpler(texts: Texts, current: string, near: string, far: string) {
    forall docs, cluster :: NoSimplerFor(texts, docs, cluster, current, near, far)
  }

  ghost predicate NoSimplerFor(texts: Texts, docs: Documents, cluster: Cluster, current: string, near: string, far: string) {
    var a, b := ComplexityTowards(texts, docs, cluster, current, near), ComplexityTowards(texts, docs, cluster, current, far);
    a.Some? ==> b.Some? && a.value <= b.value
  }

  /** The complexity an analysis arrives at with pluto skipped, unless it fails. */
  function ComplexityTowards(texts: Texts, docs: Documents, cluster: Cluster, current: string, target: string): Option<int> {
    match Analyse(texts, docs, cluster, current, target, [])
    case Err(_) => None
    case Ok(a) => Some(Complexity(a.risks))
  }

  /** An analysis with pluto skipped, given the path. */
  lemma AnalysisOf(texts: Texts, docs: Documents, cluster: Cluster, current: string, target: string, path: seq<string>, minors: seq<string>)
    requires UpgradePath(current, target) == Ok(path) && TargetMinors(path) == Some(minors)
    ensures var rag := Api.JudgedAll(cluster.observed, docs.guide, minors);
      ComplexityTowards(texts, docs, cluster, current, target) ==
        if rag.None? then None
        else Some(Complexity(RisksOf(cluster.structural, Answers(texts, docs, cluster, minors), Merged([rag.value]))))
  {
    var rag := Api.JudgedAll(cluster.observed, docs.guide, minors);
    if rag.Some? {
      JoinWithNothing(rag.value);
    }
  }

  function Answers(texts: Texts, docs: Documents, cluster: Cluster, minors: seq<string>): seq<Retriever.Answer> {
    Compat.AskedAll(Compat.Asking(Compat.Rules(docs.matrix, texts.lower, texts.slug)),
                    Compat.Components(texts.slug, cluster.inventory, cluster.primary), minors)
  }

  lemma JoinWithNothing(a: seq<Api.Finding>)
    ensures Join([a, []]) == a && Join([a]) == a
  {
    var nothing: seq<Api.Finding> := [];
    assert [a, nothing][..1] == [a] && [a][..0] == [];
    assert Join([a]) == a;
    assert Join([a, nothing]) == Join([a]) + nothing;
  }

  lemma CanonicalNeverSimpler(texts: Texts, docs: Documents, cluster: Cluster, current: string, near: string, far: string,
                              p: seq<string>, q: seq<string>, ps: seq<string>, qs: seq<string>)
    requires UpgradePath(current, near) == Ok(p) && UpgradePath(current, far) == Ok(q)
    requires TargetMinors(p) == Some(ps) && TargetMinors(q) == Some(qs)
    requires ps != [] && ps <= qs && Ascending(qs)
    ensures NoSimplerFor(texts, docs, cluster, current, near, far)
  {
    AnalysisOf(texts, docs, cluster, current, near, p, ps);
    AnalysisOf(texts, docs, cluster, current, far, q, qs);
    if Api.JudgedAll(cluster.observed, docs.guide, ps).Some? {
      JudgedAllFarther(cluster.observed, docs.guide, ps, qs);
      var rules := Compat.Rules(docs.matrix, texts.lower, texts.slug);
      AskedAllFarther(Compat.Asking(rules), Compat.Components(texts.slug, cluster.inventory, cluster.primary), ps, qs);
      var a, b := Api.JudgedAll(cluster.observed, docs.guide, ps).value, Api.JudgedAll(cluster.observed, docs.guide, qs).value;
      JoinWithNothing(a);
      JoinWithNothing(b);
      MoreEvidence(cluster.structural, Answers(texts, docs, cluster, ps), [a],
                   cluster.structural, Answers(texts, docs, cluster, qs), [b]);
    }
  }

  // ---------------------------------------------------------------- the odd target

  /** One component, compatible at every minor on the way to the farther target. */
  function Witness(slug: string -> string, minors: seq<string>): Documents {
    Documents(seq(|minors|, i requires 0 <= i < |minors| =>
      Retriever.Entry(slug("c"), minors[i], None, Retriever.Compatible, "d")), [])
  }

  const SINGLE := Cluster([Compat.Software("c", None)], None, [], [])

  lemma WitnessAnswers(texts: Texts, minors: seq<string>, minor: string)
    ensures Compat.Asking(Compat.Rules(Witness(texts.slug, minors).matrix, texts.lower, texts.slug))(Compat.Software(texts.slug("c"), None), minor).status ==
      if minor in minors then Retriever.Compatible else Retriever.Unknown
  {
    var entries := Witness(texts.slug, minors).matrix;
    var q := Retriever.Query(texts.slug("c"), None, minor);
    var i := Retriever.Decider(texts.lower, entries, q);
    if j :| 0 <= j < |minors| && minors[j] == minor {
      assert Retriever.Applies(texts.lower, q, entries[j]);
    }
  }

  lemma SingleComponent(slug: string -> string)
    ensures Compat.Components(slug, SINGLE.inventory, SINGLE.primary) == [Compat.Software(slug("c"), None)]
  {
    var c := Compat.Software(slug("c"), None);
    assert Compat.Offers(slug, SINGLE.inventory, SINGLE.primary) == [c];
    RowsOne(c, Compat.NameOf, Compat.Tie);
  }

  /** The single component answers COMPATIBLE throughout exactly when every minor is covered. */
  lemma WitnessRow(texts: Texts, minors: seq<string>, visited: seq<string>)
    requires visited != []
    ensures var answers := Answers(texts, Witness(texts.slug, minors), SINGLE, visited);
      && |Compat.Summary(answers)| == 1
      && (CompatWeight(Compat.Summary(answers)[0]) == 0 <==> forall i :: 0 <= i < |visited| ==> visited[i] in minors)
  {
    var ask := Compat.Asking(Compat.Rules(Witness(texts.slug, minors).matrix, texts.lower, texts.slug));
    var c := Compat.Software(texts.slug("c"), None);
    SingleComponent(texts.slug);
    Compat.AskingNames(Compat.Rules(Witness(texts.slug, minors).matrix, texts.lower, texts.slug));
    Compat.SummaryPerComponent(ask, [c], visited);
    var row := Compat.Summary(Compat.AskedAll(ask, [c], visited))[0];
    assert Compat.RowOf(ask, c, visited, row);
    forall i | 0 <= i < |visited|
      ensures ask(c, visited[i]).status == if visited[i] in minors then Retriever.Compatible else Retriever.Unknown
    {
      WitnessAnswers(texts, minors, visited[i]);
    }
    CoveredRow(ask, c, minors, visited, row);
  }

  /** A component that is compatible at the covered minors and unknown at all others. */
  lemma CoveredRow(ask: Compat.Oracle, c: Compat.Software, minors: seq<string>, visited: seq<string>, row: Retriever.Answer)
    requires Compat.RowOf(ask, c, visited, row)
    requires forall i :: 0 <= i < |visited| ==>
      ask(c, visited[i]).status == if visited[i] in minors then Retriever.Compatible else Retriever.Unknown
    ensures CompatWeight(row) == 0 <==> forall i :: 0 <= i < |visited| ==> visited[i] in minors
  {
    var j :| Compat.WorstFirst(ask, c, visited, j) && row == ask(c, visited[j]);
    forall n | 0 <= n < |visited|
      ensures Compat.Rank(ask(c, visited[n]).status) <= Compat.Rank(row.status)
    {
    }
  }

  lemma WitnessComplexity(texts: Texts, minors: seq<string>, current: string, target: string, path: seq<string>, visited: seq<string>)
    requires UpgradePath(current, target) == Ok(path) && TargetMinors(path) == Some(visited) && visited != []
    ensures ComplexityTowards(texts, Witness(texts.slug, minors), SINGLE, current, target).Some?
    ensures ComplexityTowards(texts, Witness(texts.slug, minors), SINGLE, current, target).value >= 0
    ensures ComplexityTowards(texts, Witness(texts.slug, minors), SINGLE, current, target).value == 0 <==>
      forall i :: 0 <= i < |visited| ==> visited[i] in minors
  {
    AnalysisOf(texts, Witness(texts.slug, minors), SINGLE, current, target, path, visited);
    WitnessPoints(texts, minors, visited);
  }

  lemma WitnessPoints(texts: Texts, minors: seq<string>, visited: seq<string>)
    requires visited != []
    ensures Points(RisksOf([], Answers(texts, Witness(texts.slug, minors), SINGLE, visited), Merged([[]]))) == 0 <==>
      forall i :: 0 <= i < |visited| ==> visited[i] in minors
  {
    var answers := Answers(texts, Witness(texts.slug, minors), SINGLE, visited);
    WitnessRow(texts, minors, visited);
    JoinWithNothing([]);
    RiskPoints([], answers, Merged([[]]));
    var row := Compat.Summary(answers)[0];
    assert Compat.Summary(answers) == [row];
    SumOne(row, CompatWeight);
  }

  lemma OddTarget(texts: Texts, current: string, near: string, far: string,
                  p: seq<string>, q: seq<string>, ps: seq<string>, qs: seq<string>)
    requires UpgradePath(current, near) == Ok(p) && UpgradePath(current, far) == Ok(q)
    requires TargetMinors(p) == Some(ps) && TargetMinors(q) == Some(qs)
    requires ps != [] && qs != [] && ps[|ps|-1] !in qs
    ensures !NoSimplerFor(texts, Witness(texts.slug, qs), SINGLE, current, near, far)
  {
    WitnessComplexity(texts, qs, current, near, p, ps);
    WitnessComplexity(texts, qs, current, far, q, qs);
  }

  /** With the cluster, the documents and everything else fixed, a strictly farther target
      never makes the analysis fail or the complexity fall, whatever the cluster and the
      documents say, exactly when the nearer target is canonical. (A target such as `1.036.2`
      is looked up under the label `1.036`, which documents about 1.36 do not answer.) */
  lemma FartherNeverSimpler(texts: Texts, current: string, near: string, far: string, p: seq<string>, q: seq<string>)
    requires UpgradePath(current, near) == Ok(p) && UpgradePath(current, far) == Ok(q) && |p| < |q|
    ensures NeverSimpler(texts, current, near, far) <==> CanonicalTarget(near)
  {
    NearerPathIsPrefix(current, near, far, p, q);
    NeverSimplerIff(texts, current, near, far, p, q, TargetMinors(p).value, TargetMinors(q).value);
  }

  lemma NeverSimplerIff(texts: Texts, current: string, near: string, far: string,
                        p: seq<string>, q: seq<string>, ps: seq<string>, qs: seq<string>)
    requires UpgradePath(current, near) == Ok(p) && UpgradePath(current, far) == Ok(q)
    requires TargetMinors(p) == Some(ps) && TargetMinors(q) == Some(qs)
    requires ps != [] && qs != [] && Ascending(qs) && (ps <= qs <==> ps[|ps|-1] in qs)
    ensures NeverSimpler(texts, current, near, far) <==> ps <= qs
  {
    if ps <= qs {
      forall docs, cluster {
        CanonicalNeverSimpler(texts, docs, cluster, current, near, far, p, q, ps, qs);
      }
    } else {
      OddTarget(texts, current, near, far, p, q, ps, qs);
    }
  }

  /** An instance of the failing side: from 1.35, going to 1.37 can look simpler than going to
      `1.036.2`. */
  lemma OddTargetLooksHarder(texts: Texts)
    ensures !NeverSimpler(texts, "1.35", "1.036.2", "1.37")
  {
    OddTargetAccepted();
    FartherNeverSimpler(texts, "1.35", "1.036.2", "1.37",
                        UpgradePath("1.35", "1.036.2").value, UpgradePath("1.35", "1.37").value);
  }
}
