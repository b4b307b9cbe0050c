/** Whether the phases of a plan together list what the analysis found: results, merged findings
    and risks, from the two version texts, the documents, the cluster and pluto's report on. */
module PhasePartition {
  import Api = DeprecatedApi
  import Compat = Compatibility
  import opened ApiSummary
  import opened EarliestWorst
  import opened PlanMeaning
  import opened Planner
  import opened Ranking
  import opened Readiness
  import opened Versions
  import opened Wrappers
  import Pipeline
  import Retriever

  // ---------------------------------------------------------------- the labels of the path

  /** Pluto's findings carry the label of the last phase. A caller can check this up front. */
  predicate Anchored(target: string) {
    match ParseVersion(target)
    case Err(_) => false
    case Ok(tgt) => tgt.hasPatch || MinorLabel(target) == Some(Label(tgt.major, tgt.minor))
  }

  lemma AnchoredIff(current: string, target: string, path: seq<string>, minors: seq<string>)
    requires UpgradePath(current, target) == Ok(path) && TargetMinors(path) == Some(minors)
    ensures |path| == |minors| + 1 && minors != [] && Ascending(minors)
    ensures MinorTuple(PlutoTarget(target)) == MinorTuple(minors[|minors|-1])
    ensures PlutoTarget(target) in minors <==> Anchored(target)
  {
    var cur, tgt := ParseVersion(current).value, ParseVersion(target).value;
    PathMinors(current, target, path, cur, tgt);
    PlutoTargetIsLast(current, target, path, cur, tgt);
    LastOnly(minors, PlutoTarget(target));
  }

  /** Only the last of ascending minors reads like the last. */
  lemma LastOnly(minors: seq<string>, text: string)
    requires Ascending(minors) && minors != [] && MinorTuple(text) == MinorTuple(minors[|minors|-1])
    ensures text in minors <==> text == minors[|minors|-1]
  {
    forall j | 0 <= j < |minors| - 1
      ensures minors[j] != text
    {
      assert PairLess(MinorTuple(minors[j]).value, MinorTuple(minors[|minors|-1]).value);
    }
  }

  lemma {:induction false} AnswersOnPath(ask: Compat.Oracle, components: seq<Compat.Software>, minors: seq<string>)
    requires forall c, m :: ask(c, m).minor == m
    ensures forall a :: a in Compat.AskedAll(ask, components, minors) ==> a.minor in minors
    decreases |components|
  {
    if components == [] {
    } else {
      var n := |components| - 1;
      AnswersOnPath(ask, components[..n], minors);
      forall a | a in Compat.Along(ask, components[n], minors)
        ensures a.minor in minors
      {
        var i :| 0 <= i < |minors| && Compat.Along(ask, components[n], minors)[i] == a;
      }
    }
  }

  lemma AskingKeepsMinor(rules: Compat.Rules)
    ensures forall c, m :: Compat.Asking(rules)(c, m).minor == m
  {
  }

  // ---------------------------------------------------------------- what an analysis consists of

  /** The analysis that led to a plan, with the labels of its path, the guide's own findings
      `rag` and those of pluto, `late`. */
  ghost predicate AnalysedAs(texts: Pipeline.Texts, docs: Pipeline.Documents, cluster: Pipeline.Cluster, target: string,
                             pluto: seq<PlutoItem>, a: Pipeline.Analysis, minors: seq<string>, rag: seq<Api.Finding>) {
    && Api.JudgedAll(cluster.observed, docs.guide, minors) == Some(rag)
    && a.results == Pipeline.Answers(texts, docs, cluster, minors)
    && a.findings == Merged([rag, PlutoFindings(pluto, PlutoTarget(target))])
    && a.risks == Pipeline.RisksOf(cluster.structural, a.results, a.findings)
  }

  lemma AnalysisParts(texts: Pipeline.Texts, docs: Pipeline.Documents, cluster: Pipeline.Cluster,
                      current: string, target: string, pluto: seq<PlutoItem>, a: Pipeline.Analysis, minors: seq<string>)
    returns (rag: seq<Api.Finding>)
    requires Pipeline.Analyse(texts, docs, cluster, current, target, pluto) == Ok(a)
    requires TargetMinors(a.path) == Some(minors)
    ensures UpgradePath(current, target) == Ok(a.path)
    ensures Api.Evaluate(cluster.observed, docs.guide, a.path) == Some(rag)
    ensures AnalysedAs(texts, docs, cluster, target, pluto, a, minors, rag)
  {
    rag := Api.Evaluate(cluster.observed, docs.guide, a.path).value;
  }

  lemma ResultsOnPath(texts: Pipeline.Texts, docs: Pipeline.Documents, cluster: Pipeline.Cluster, minors: seq<string>)
    ensures forall a :: a in Pipeline.Answers(texts, docs, cluster, minors) ==> a.minor in minors
  {
    var rules := Compat.Rules(docs.matrix, texts.lower, texts.slug);
    AskingKeepsMinor(rules);
    AnswersOnPath(Compat.Asking(rules), Compat.Components(texts.slug, cluster.inventory, cluster.primary), minors);
  }

  lemma GuideOnPath(observed: seq<Api.Observed>, guide: seq<Api.Entry>, minors: seq<string>, rag: seq<Api.Finding>)
    requires Ascending(minors) && Api.JudgedAll(observed, guide, minors) == Some(rag)
    ensures forall f :: f in rag ==> f.target in minors
  {
    forall f | f in rag
      ensures f.target in minors
    {
      var j :| 0 <= j < |rag| && rag[j] == f;
      TargetsOnPath(observed, guide, minors, j);
    }
  }

  // ---------------------------------------------------------------- pluto's part

  lemma {:induction false} FlaggedFound(items: seq<PlutoItem>, target: string, i: nat)
    requires i < |items| && Reported(items[i])
    ensures PlutoFinding(items[i], target) in PlutoFindings(items, target)
  {
    if i < |items| - 1 {
      FlaggedFound(items[..|items|-1], target, i);
    }
  }

  lemma {:induction false} FoundFlagged(items: seq<PlutoItem>, target: string, f: Api.Finding) returns (i: nat)
    requires f in PlutoFindings(items, target)
    ensures i < |items| && Reported(items[i]) && f == PlutoFinding(items[i], target)
  {
    var n := |items| - 1;
    if f in PlutoFindings(items[..n], target) {
      i := FoundFlagged(items[..n], target, f);
    } else {
      i := n;
    }
  }

  /** A merged finding is one of the guide's or one of pluto's. */
  lemma MergedFrom(rag: seq<Api.Finding>, late: seq<Api.Finding>, f: Api.Finding)
    requires f in Merged([rag, late])
    ensures f in rag || f in late
  {
    JoinTwo(rag, late);
    RowsExact(rag + late, MergeKey, MergeScore);
    var i :| 0 <= i < |Merged([rag, late])| && Merged([rag, late])[i] == f;
  }

  /** A row of the table is one of the guide's findings or one of pluto's. */
  lemma RowFrom(rag: seq<Api.Finding>, late: seq<Api.Finding>, row: Api.Finding)
    requires row in Summary(Merged([rag, late]))
    ensures row in rag || row in late
  {
    var i := PickedRow(Merged([rag, late]), row);
    MergedFrom(rag, late, row);
  }

  /** A finding of pluto's leaves a merged row about the same resource and minor. */
  lemma LateRow(rag: seq<Api.Finding>, late: seq<Api.Finding>, f: Api.Finding) returns (row: Api.Finding)
    requires f in late
    ensures row in Merged([rag, late]) && row.target == f.target
  {
    JoinTwo(rag, late);
    var j := MergedRow(rag + late, f);
    row := Merged([rag, late])[j];
    assert MergeKey(row) == MergeKey(f);
  }

  /** The guide reports the resource of `f` at least as severely. */
  ghost predicate CoveredBy(rag: seq<Api.Finding>, f: Api.Finding) {
    exists g :: g in rag && g.resource == f.resource && Api.Rank(f.status) <= Api.Rank(g.status)
  }

  /** The guide covers whatever pluto flags; `last` is the label pluto reports under. */
  ghost predicate GuideCovers(rag: seq<Api.Finding>, pluto: seq<PlutoItem>, last: string) {
    forall i :: 0 <= i < |pluto| && Reported(pluto[i]) ==> CoveredBy(rag, PlutoFinding(pluto[i], last))
  }

  /** Pluto's findings are about a minor of their own. */
  ghost predicate Apart(rag: seq<Api.Finding>, late: seq<Api.Finding>, last: string) {
    (forall g :: g in rag ==> g.target != last) && (forall f :: f in late ==> f.target == last)
  }

  /** Merged rows of the guide's stand before those of pluto's. */
  lemma GuideRowsFirst(rag: seq<Api.Finding>, late: seq<Api.Finding>, last: string, i: nat, j: nat)
    requires Apart(rag, late, last)
    requires i < |Rows(rag + late, MergeKey, MergeScore)| && j < |Rows(rag + late, MergeKey, MergeScore)|
    requires Rows(rag + late, MergeKey, MergeScore)[i].target == last
    requires Rows(rag + late, MergeKey, MergeScore)[j].target != last
    ensures j < i
  {
    var raw: seq<Api.Finding> := rag + late;
    RowsExact(raw, MergeKey, MergeScore);
    if i < j {
      var p, q := KeysInOrder(raw, MergeKey, i, j);
      assert MergeKey(raw[p]).target == last && MergeKey(raw[q]).target != last;
      LastStaysLate(rag, late, last, p, q);
    }
  }

  lemma LastStaysLate(rag: seq<Api.Finding>, late: seq<Api.Finding>, last: string, p: nat, q: nat)
    requires Apart(rag, late, last) && p < |rag + late| && q < |rag + late|
    requires var raw: seq<Api.Finding> := rag + late; raw[p].target == last && raw[q].target != last
    ensures q < p
  {
    var raw: seq<Api.Finding> := rag + late;
    forall k | 0 <= k < |raw|
      ensures k < |rag| <==> raw[k].target != last
    {
      if k < |rag| {
        assert raw[k] in rag;
      } else {
        assert raw[k] in late;
      }
    }
  }

  /** A row of pluto's in the table is more severe than whatever the guide says of its resource. */
  lemma LateRowBeats(rag: seq<Api.Finding>, late: seq<Api.Finding>, last: string, row: Api.Finding, g: Api.Finding)
    requires Apart(rag, late, last) && row in Summary(Merged([rag, late])) && row.target == last
    requires g in rag && g.resource == row.resource
    ensures Api.Rank(g.status) < Api.Rank(row.status)
  {
    JoinTwo(rag, late);
    var merged := Merged([rag, late]);
    var i := PickedRow(merged, row);
    var j := MergedRow(rag + late, g);
    assert MergeKey(merged[j]) == MergeKey(g);
    GuideRowsFirst(rag, late, last, i, j);
  }

  /** The table has a row for the resource of each raw finding, at least as severe. */
  lemma TableRow(raw: seq<Api.Finding>, f: Api.Finding) returns (row: Api.Finding)
    requires f in raw
    ensures row in Summary(Rows(raw, MergeKey, MergeScore))
    ensures row.resource == f.resource && Api.Rank(f.status) <= Api.Rank(row.status)
  {
    var merged := Rows(raw, MergeKey, MergeScore);
    var j := MergedRow(raw, f);
    var i := RowAbove(merged, ResourceOf, StatusScore, j);
    row := Summary(merged)[i];
    assert MergeKey(merged[j]) == MergeKey(f) && ResourceOf(row) == ResourceOf(merged[j]);
    assert StatusScore(merged[j]) <= StatusScore(row);
  }

  /** No row of the table is pluto's exactly when the guide covers all of pluto's findings. */
  lemma NoLateRowIff(rag: seq<Api.Finding>, late: seq<Api.Finding>, last: string)
    requires Apart(rag, late, last)
    ensures (forall row :: row in Summary(Merged([rag, late])) ==> row.target != last) <==>
      forall f :: f in late ==> CoveredBy(rag, f)
  {
    var table := Summary(Merged([rag, late]));
    forall row | row in table && row.target == last
      ensures row in late && !CoveredBy(rag, row)
    {
      RowFrom(rag, late, row);
      forall g | g in rag && g.resource == row.resource
        ensures Api.Rank(g.status) < Api.Rank(row.status)
      {
        LateRowBeats(rag, late, last, row, g);
      }
    }
    forall f | f in late && !CoveredBy(rag, f)
      ensures exists row :: row in table && row.target == last
    {
      JoinTwo(rag, late);
      var row := TableRow(rag + late, f);
      RowFrom(rag, late, row);
    }
  }

  // ---------------------------------------------------------------- results and findings

  /** Every compatibility result of the analysis is in exactly one phase, so the phases add up
      to the results. */
  lemma ResultsPartitioned(texts: Pipeline.Texts, docs: Pipeline.Documents, cluster: Pipeline.Cluster,
                           current: string, target: string, pluto: seq<PlutoItem>,
                           a: Pipeline.Analysis, inputs: Inputs, minors: seq<string>)
    requires Pipeline.Analyse(texts, docs, cluster, current, target, pluto) == Ok(a)
    requires inputs.results == a.results && TargetMinors(a.path) == Some(minors)
    ensures |a.path| == |minors| + 1
    ensures multiset(ListedResults(Plan(inputs, a.path, minors))) == multiset(a.results)
  {
    var rag := AnalysisParts(texts, docs, cluster, current, target, pluto, a, minors);
    AnchoredIff(current, target, a.path, minors);
    AscendingNoRepeats(minors);
    ResultsOnPath(texts, docs, cluster, minors);
    ResultsListed(inputs, a.path, minors);
  }

  /** Every merged finding is in exactly one phase, exactly when pluto flags nothing or the target
      is anchored: towards `1.036` pluto reports under a label no phase carries. */
  lemma FindingsPartitioned(texts: Pipeline.Texts, docs: Pipeline.Documents, cluster: Pipeline.Cluster,
                            current: string, target: string, pluto: seq<PlutoItem>,
                            a: Pipeline.Analysis, inputs: Inputs, minors: seq<string>)
    requires Pipeline.Analyse(texts, docs, cluster, current, target, pluto) == Ok(a)
    requires inputs.findings == a.findings && TargetMinors(a.path) == Some(minors)
    ensures |a.path| == |minors| + 1
    ensures multiset(ListedFindings(Plan(inputs, a.path, minors))) == multiset(a.findings) <==>
      Anchored(target) || forall i :: 0 <= i < |pluto| ==> !Reported(pluto[i])
  {
    var rag := AnalysisParts(texts, docs, cluster, current, target, pluto, a, minors);
    AnchoredIff(current, target, a.path, minors);
    AscendingNoRepeats(minors);
    GuideOnPath(cluster.observed, docs.guide, minors, rag);
    FindingsOnPathIff(rag, pluto, PlutoTarget(target), minors);
    FindingsListed(inputs, a.path, minors);
  }

  lemma FindingsOnPathIff(rag: seq<Api.Finding>, pluto: seq<PlutoItem>, last: string, minors: seq<string>)
    requires forall f :: f in rag ==> f.target in minors
    ensures (forall f :: f in Merged([rag, PlutoFindings(pluto, last)]) ==> f.target in minors) <==>
      last in minors || forall i :: 0 <= i < |pluto| ==> !Reported(pluto[i])
  {
    var late := PlutoFindings(pluto, last);
    forall f | f in Merged([rag, late])
      ensures f in rag || (f.target == last && exists i :: 0 <= i < |pluto| && Reported(pluto[i]))
    {
      MergedFrom(rag, late, f);
      if f in late {
        var i := FoundFlagged(pluto, last, f);
      }
    }
    forall i | 0 <= i < |pluto| && Reported(pluto[i])
      ensures exists f :: f in Merged([rag, late]) && f.target == last
    {
      FlaggedFound(pluto, last, i);
      var row := LateRow(rag, late, PlutoFinding(pluto[i], last));
    }
  }

  // ---------------------------------------------------------------- risks

  lemma {:induction false} CompatRisksLabelled(results: seq<Retriever.Answer>, r: Risk) returns (a: Retriever.Answer)
    requires r in CompatRisks(results)
    ensures a in results && r.step == Some(StepLabel(a.minor))
  {
    var n := |results| - 1;
    if r in CompatRisks(results[..n]) {
      a := CompatRisksLabelled(results[..n], r);
    } else {
      a := results[n];
    }
  }

  lemma {:induction false} ApiRisksLabelled(findings: seq<Api.Finding>, r: Risk) returns (f: Api.Finding)
    requires r in ApiRisks(findings) && r.step.Some?
    ensures f in findings && r.step == Some(StepLabel(f.target))
  {
    var n := |findings| - 1;
    if r in ApiRisks(findings[..n]) {
      f := ApiRisksLabelled(findings[..n], r);
    } else {
      f := findings[n];
    }
  }

  lemma {:induction false} ApiRiskOf(findings: seq<Api.Finding>, f: Api.Finding) returns (r: Risk)
    requires f in findings && f.status != Api.OK && f.target != ""
    ensures r in ApiRisks(findings) && r.step == Some(StepLabel(f.target))
  {
    var n := |findings| - 1;
    if f == findings[n] {
      r := Risk(ApiSeverity(f.status).value, Some(StepLabel(f.target)));
    } else {
      r := ApiRiskOf(findings[..n], f);
    }
  }

  /** A label some phase carries. */
  ghost predicate OnPath(minors: seq<string>, r: Risk) {
    exists m :: m in minors && r.step == Some(StepLabel(m))
  }

  /** A labelled risk stems from a compatibility row or from a row of the deprecated-API table. */
  lemma RiskOrigin(structural: seq<Risk>, results: seq<Retriever.Answer>, findings: seq<Api.Finding>, r: Risk) returns (m: string)
    requires forall x :: x in structural ==> x.step.None?
    requires r in Pipeline.RisksOf(structural, results, findings) && r.step.Some?
    ensures r.step == Some(StepLabel(m))
    ensures (exists a :: a in results && a.minor == m) || (exists f :: f in Summary(findings) && f.target == m)
  {
    if r in CompatRisks(Compat.Summary(results)) {
      var a := CompatRisksLabelled(Compat.Summary(results), r);
      RowsExact(results, Compat.ComponentOf, Compat.StatusScore);
      m := a.minor;
      assert a in results;
    } else {
      var f := ApiRisksLabelled(Summary(findings), r);
      m := f.target;
    }
  }

  /** The labels of all labelled risks are on the path exactly when those of the table's rows are. */
  lemma RisksOnPathIff(structural: seq<Risk>, results: seq<Retriever.Answer>, findings: seq<Api.Finding>, minors: seq<string>)
    requires forall x :: x in structural ==> x.step.None?
    requires forall a :: a in results ==> a.minor in minors
    requires forall f :: f in Summary(findings) && f.target !in minors ==> f.status != Api.OK && f.target != ""
    ensures (forall r :: r in Pipeline.RisksOf(structural, results, findings) && r.step.Some? ==> OnPath(minors, r)) <==>
      forall f :: f in Summary(findings) ==> f.target in minors
  {
    if forall f :: f in Summary(findings) ==> f.target in minors {
      forall r | r in Pipeline.RisksOf(structural, results, findings) && r.step.Some?
        ensures OnPath(minors, r)
      {
        var m := RiskOrigin(structural, results, findings, r);
      }
    }
    forall f | f in Summary(findings) && f.target !in minors
      ensures exists r :: r in Pipeline.RisksOf(structural, results, findings) && r.step.Some? && !OnPath(minors, r)
    {
      var r := ApiRiskOf(Summary(findings), f);
      OffPath(minors, r, f.target);
    }
  }

  lemma OffPath(minors: seq<string>, r: Risk, m: string)
    requires r.step == Some(StepLabel(m)) && m !in minors
    ensures !OnPath(minors, r)
  {
    forall t | t in minors
      ensures r.step != Some(StepLabel(t))
    {
      StepLabelInjective(t, m);
    }
  }

  /** Whose rows the table has, towards any target. */
  lemma TableOnPathIff(rag: seq<Api.Finding>, pluto: seq<PlutoItem>, last: string, minors: seq<string>)
    requires forall f :: f in rag ==> f.target in minors
    ensures (forall row :: row in Summary(Merged([rag, PlutoFindings(pluto, last)])) ==> row.target in minors) <==>
      last in minors || GuideCovers(rag, pluto, last)
    ensures forall row :: row in Summary(Merged([rag, PlutoFindings(pluto, last)])) && row.target !in minors ==>
      row.status != Api.OK && row.target == last
  {
    var late := PlutoFindings(pluto, last);
    forall row | row in Summary(Merged([rag, late]))
      ensures row in rag || row in late
    {
      RowFrom(rag, late, row);
    }
    if last !in minors {
      NoLateRowIff(rag, late, last);
      forall f | f in late
        ensures exists i :: 0 <= i < |pluto| && Reported(pluto[i]) && f == PlutoFinding(pluto[i], last)
      {
        var i := FoundFlagged(pluto, last, f);
      }
      forall i | 0 <= i < |pluto| && Reported(pluto[i])
        ensures PlutoFinding(pluto[i], last) in late
      {
        FlaggedFound(pluto, last, i);
      }
    }
  }

  lemma RisksListed(inputs: Inputs, path: seq<string>, minors: seq<string>)
    requires |path| == |minors| + 1 && NoRepeats(minors)
    requires forall r :: r in inputs.risks && r.step.Some? ==> exists m :: r.step == Some(StepLabel(m))
    ensures (forall r :: r in inputs.risks && r.step.Some? ==> AllListed(inputs, path, minors, r)) <==>
      forall r :: r in inputs.risks && r.step.Some? ==> OnPath(minors, r)
  {
    forall r | r in inputs.risks && r.step.Some?
      ensures AllListed(inputs, path, minors, r) <==> OnPath(minors, r)
    {
      var m :| r.step == Some(StepLabel(m));
      RiskListedIff(inputs, path, minors, r, m);
      if m !in minors {
        OffPath(minors, r, m);
      }
    }
  }

  /** Every risk with a step is listed in the one phase of its step, given that the risks of the
      cluster's structure carry no step (only the two builders of labels set one), exactly when
      the target is anchored, or the guide reports every resource that pluto flags at least as
      severely: towards `1.036` a row of pluto's becomes a risk that no phase lists. `rag` are
      the guide's own findings. */
  lemma RisksPartitioned(texts: Pipeline.Texts, docs: Pipeline.Documents, cluster: Pipeline.Cluster,
                         current: string, target: string, pluto: seq<PlutoItem>,
                         a: Pipeline.Analysis, inputs: Inputs, minors: seq<string>) returns (rag: seq<Api.Finding>)
    requires Pipeline.Analyse(texts, docs, cluster, current, target, pluto) == Ok(a)
    requires inputs.risks == a.risks && TargetMinors(a.path) == Some(minors)
    requires forall r :: r in cluster.structural ==> r.step.None?
    ensures |a.path| == |minors| + 1
    ensures Api.Evaluate(cluster.observed, docs.guide, a.path) == Some(rag)
    ensures (forall r :: r in a.risks && r.step.Some? ==> AllListed(inputs, a.path, minors, r)) <==>
      Anchored(target) || GuideCovers(rag, pluto, PlutoTarget(target))
  {
    rag := AnalysisParts(texts, docs, cluster, current, target, pluto, a, minors);
    TargetLabels(current, target, a.path, minors);
    GuideOnPath(cluster.observed, docs.guide, minors, rag);
    ResultsOnPath(texts, docs, cluster, minors);
    RisksListedIff(cluster.structural, a.results, rag, pluto, PlutoTarget(target), inputs, a.path, minors);
  }

  lemma TargetLabels(current: string, target: string, path: seq<string>, minors: seq<string>)
    requires UpgradePath(current, target) == Ok(path) && TargetMinors(path) == Some(minors)
    ensures |path| == |minors| + 1 && Ascending(minors) && NoRepeats(minors)
    ensures PlutoTarget(target) != "" && (PlutoTarget(target) in minors <==> Anchored(target))
  {
    AnchoredIff(current, target, path, minors);
    AscendingNoRepeats(minors);
    ReadableNotEmpty(PlutoTarget(target));
  }

  lemma ReadableNotEmpty(text: string)
    requires MinorTuple(text).Some?
    ensures text != ""
  {
  }

  lemma RisksListedIff(structural: seq<Risk>, results: seq<Retriever.Answer>, rag: seq<Api.Finding>, pluto: seq<PlutoItem>,
                       last: string, inputs: Inputs, path: seq<string>, minors: seq<string>)
    requires forall r :: r in structural ==> r.step.None?
    requires forall a :: a in results ==> a.minor in minors
    requires forall f :: f in rag ==> f.target in minors
    requires last != "" && |path| == |minors| + 1 && NoRepeats(minors)
    requires inputs.risks == Pipeline.RisksOf(structural, results, Merged([rag, PlutoFindings(pluto, last)]))
    ensures (forall r :: r in inputs.risks && r.step.Some? ==> AllListed(inputs, path, minors, r)) <==>
      last in minors || GuideCovers(rag, pluto, last)
  {
    var findings := Merged([rag, PlutoFindings(pluto, last)]);
    TableOnPathIff(rag, pluto, last, minors);
    RisksOnPathIff(structural, results, findings, minors);
    RisksLabelled(structural, results, findings);
    RisksListed(inputs, path, minors);
  }

  lemma RisksLabelled(structural: seq<Risk>, results: seq<Retriever.Answer>, findings: seq<Api.Finding>)
    requires forall r :: r in structural ==> r.step.None?
    ensures forall r :: r in Pipeline.RisksOf(structural, results, findings) && r.step.Some? ==>
      exists m :: r.step == Some(StepLabel(m))
  {
    forall r | r in Pipeline.RisksOf(structural, results, findings) && r.step.Some?
      ensures exists m :: r.step == Some(StepLabel(m))
    {
      var m := RiskOrigin(structural, results, findings, r);
    }
  }

  // ---------------------------------------------------------------- an odd target

  const NOTHING := Pipeline.Cluster([], None, [], [])

  /** An instance of the failing side: from 1.35 towards `1.036`, with no documents, an empty
      cluster and one item that pluto flags, the analysis succeeds, and neither the finding nor
      its risk is in any phase. */
  lemma OddTargetUnlisted(texts: Pipeline.Texts, item: PlutoItem, inputs: Inputs)
    requires Reported(item)
    ensures !Anchored("1.036")
    ensures Pipeline.Analyse(texts, Pipeline.Documents([], []), NOTHING, "1.35", "1.036", [item]).Ok?
    ensures var a := Pipeline.Analyse(texts, Pipeline.Documents([], []), NOTHING, "1.35", "1.036", [item]).value;
      && TargetMinors(a.path).Some? && |a.path| == |TargetMinors(a.path).value| + 1
      && (inputs.findings == a.findings ==>
            multiset(ListedFindings(Plan(inputs, a.path, TargetMinors(a.path).value))) != multiset(a.findings))
      && (inputs.risks == a.risks ==>
            exists r :: r in a.risks && r.step.Some? && !AllListed(inputs, a.path, TargetMinors(a.path).value, r))
  {
    var docs := Pipeline.Documents([], []);
    OddTargetAccepted();
    OddTargets();
    var path := UpgradePath("1.35", "1.036").value;
    PathMinors("1.35", "1.036", path, Version(1, 35, false), Version(1, 36, false));
    var minors := TargetMinors(path).value;
    assert Api.Evaluate(NOTHING.observed, docs.guide, path) == Some([]);
    var a := Pipeline.Analyse(texts, docs, NOTHING, "1.35", "1.036", [item]).value;
    assert Reported([item][0]);
    if inputs.findings == a.findings {
      FindingsPartitioned(texts, docs, NOTHING, "1.35", "1.036", [item], a, inputs, minors);
    }
    if inputs.risks == a.risks {
      var rag := RisksPartitioned(texts, docs, NOTHING, "1.35", "1.036", [item], a, inputs, minors);
      assert !CoveredBy(rag, PlutoFinding([item][0], PlutoTarget("1.036")));
    }
  }
}
