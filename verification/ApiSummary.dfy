/** From raw deprecated-API findings to the table of the report: the pluto cross-check,
    `merge_findings`, `summarize_deprecated_apis`, and what the chain of them yields. */
module ApiSummary {
  import opened DeprecatedApi
  import opened Lists
  import opened Ranking
  import opened Text
  import opened Traces
  import opened Versions
  import opened Wrappers

  // ---------------------------------------------------------------- pluto

  /** An item of pluto's report; `foundIn` is what the scanned file's name maps to. */
  datatype PlutoItem = PlutoItem(apiKind: Option<string>, itemKind: Option<string>, version: Option<string>,
                                 name: Option<string>, namespace: Option<string>,
                                 removed: bool, deprecated: bool, foundIn: string)

  function OrElse(o: Option<string>, alternative: string): string {
    if o.Some? && o.value != "" then o.value else alternative
  }

  /** `".".join(target_version.lstrip("v").split(".")[:2])`. */
  function PlutoTarget(targetVersion: string): string {
    var parts := Split(LStrip(targetVersion, 'v'), '.');
    if |parts| < 2 then parts[0] else parts[0] + "." + parts[1]
  }

  function PlutoResource(item: PlutoItem): Resource {
    Resource(OrElse(item.apiKind, OrElse(item.itemKind, "?")), OrElse(item.version, "?"), item.name,
             if OrElse(item.namespace, "") == "" then None else item.namespace)
  }

  function PlutoFinding(item: PlutoItem, target: string): Finding {
    Finding(PlutoResource(item), target,
            if item.removed && !FromHelm(item.foundIn) then UpgradeBlocker else ActionRequired, Pluto, item.foundIn)
  }

  function PlutoFindings(items: seq<PlutoItem>, target: string): (fs: seq<Finding>)
    ensures forall f :: f in fs ==> f.target == target && f.scanner == Pluto && Rank(f.status) >= 2
    ensures forall f :: f in fs && FromHelm(f.foundIn) ==> f.status != UpgradeBlocker
  {
    if items == [] then []
    else
      var last := items[|items|-1];
      PlutoFindings(items[..|items|-1], target)
      + if last.removed || last.deprecated then [PlutoFinding(last, target)] else []
  }

  /** The loop over pluto's items. */
  method CollectPluto(items: seq<PlutoItem>, targetVersion: string) returns (findings: seq<Finding>)
    ensures findings == PlutoFindings(items, PlutoTarget(targetVersion))
  {
    var target := PlutoTarget(targetVersion);
    findings := [];
    for i := 0 to |items|
      invariant findings == PlutoFindings(items[..i], target)
    {
      assert items[..i + 1][..i] == items[..i];
      if items[i].removed || items[i].deprecated {
        var status := if items[i].removed then UpgradeBlocker else ActionRequired;
        if status == UpgradeBlocker && FromHelm(items[i].foundIn) {
          status := ActionRequired;
        }
        findings := findings + [Finding(PlutoResource(items[i]), target, status, Pluto, items[i].foundIn)];
      }
    }
    assert items[..|items|] == items;
  }

  /** An item pluto reports a finding for. */
  predicate Reported(item: PlutoItem) {
    item.removed || item.deprecated
  }

  /** The first of the texts that is there and not empty, or a question mark. */
  ghost predicate NamedBy(text: string, first: Option<string>, second: Option<string>) {
    if first.Some? && first.value != "" then text == first.value
    else if second.Some? && second.value != "" then text == second.value
    else text == "?"
  }

  /** What pluto's finding says of its item: a removed API blocks the upgrade unless it was found in
      a chart; whatever else is flagged requires action. */
  ghost predicate Tells(f: Finding, item: PlutoItem) {
    && (f.status == UpgradeBlocker <==> item.removed && !("helm" <= item.foundIn))
    && (f.status == ActionRequired <==> !item.removed || "helm" <= item.foundIn)
    && f.foundIn == item.foundIn && f.resource.name == item.name
    && NamedBy(f.resource.kind, item.apiKind, item.itemKind) && NamedBy(f.resource.apiVersion, item.version, None)
    && f.resource.namespace == (if item.namespace == Some("") then None else item.namespace)
  }

  ghost predicate TellsAt(fs: seq<Finding>, flagged: seq<PlutoItem>, i: int) {
    0 <= i < |fs| && i < |flagged| ==> Tells(fs[i], flagged[i])
  }

  /** One finding per item that is removed or deprecated, in order, and none for any other. */
  lemma {:induction false} PlutoTells(items: seq<PlutoItem>, target: string)
    ensures |PlutoFindings(items, target)| == |Filter(items, Reported)|
    ensures forall i :: TellsAt(PlutoFindings(items, target), Filter(items, Reported), i)
  {
    if items == [] {
    } else {
      var n := |items| - 1;
      PlutoTells(items[..n], target);
      FilterSnoc(items[..n], items[n], Reported);
      assert items == items[..n] + [items[n]];
      if Reported(items[n]) {
        PlutoTellsOne(items[n], target);
        TellsMore(PlutoFindings(items[..n], target), Filter(items[..n], Reported), PlutoFinding(items[n], target), items[n]);
      } else {
        assert PlutoFindings(items, target) == PlutoFindings(items[..n], target) + [];
        assert PlutoFindings(items, target) == PlutoFindings(items[..n], target);
        assert Filter(items, Reported) == Filter(items[..n], Reported);
      }
    }
  }

  lemma PlutoTellsOne(item: PlutoItem, target: string)
    ensures Tells(PlutoFinding(item, target), item)
  {
  }

  lemma TellsMore(fs: seq<Finding>, flagged: seq<PlutoItem>, f: Finding, item: PlutoItem)
    requires |fs| == |flagged| && (forall i :: TellsAt(fs, flagged, i)) && Tells(f, item)
    ensures forall i :: TellsAt(fs + [f], flagged + [item], i)
  {
    forall i
      ensures TellsAt(fs + [f], flagged + [item], i)
    {
      assert TellsAt(fs, flagged, i);
    }
  }

  /** The minor pluto scans against reads as the last minor of the path, and it is spelled like
      it exactly when the target has a patch or is itself spelled canonically. */
  lemma PlutoTargetIsLast(current: string, target: string, path: seq<string>, cur: Version, tgt: Version)
    requires UpgradePath(current, target) == Ok(path)
    requires ParseVersion(current) == Ok(cur) && ParseVersion(target) == Ok(tgt)
    ensures TargetMinors(path).Some? && |TargetMinors(path).value| == |path| - 1 >= 1
    ensures MinorTuple(PlutoTarget(target)) == MinorTuple(TargetMinors(path).value[|path| - 2]) == Some((tgt.major, tgt.minor))
    ensures PlutoTarget(target) == TargetMinors(path).value[|path| - 2] <==>
      tgt.hasPatch || MinorLabel(target) == Some(Label(tgt.major, tgt.minor))
  {
    var n := |path| - 2;
    PathMinors(current, target, path, cur, tgt);
    PlutoTargetIsLabel(target);
    LabelReadsBack(target);
    assert path[1..][n] == path[n + 1];
    PathEnd(current, target, path, cur, tgt);
    IntermediateParses(tgt.major, tgt.minor);
  }

  lemma PathEnd(current: string, target: string, path: seq<string>, cur: Version, tgt: Version)
    requires UpgradePath(current, target) == Ok(path)
    requires ParseVersion(current) == Ok(cur) && ParseVersion(target) == Ok(tgt)
    ensures |path| >= 2
    ensures path[|path| - 1] == if tgt.hasPatch then target else IntermediateVersion(tgt.major, tgt.minor)
  {
    assert path == PathBetween(current, target, cur, tgt);
    assert path[|path| - 1] == PathEntry(current, target, cur, tgt, tgt.minor - cur.minor);
  }

  lemma PlutoTargetIsLabel(target: string)
    requires ParseVersion(target).Ok?
    ensures MinorLabel(target) == Some(PlutoTarget(target))
  {
    var i := IndexOf(target, '.');
    ParseIntHead(Split(target, '.')[0]);
    assert Split(target, '.')[0] == target[..i];
    assert LStrip(target, 'v') == target;
  }

  // ---------------------------------------------------------------- merge

  datatype ResourceAt = ResourceAt(resource: Resource, target: string)

  function MergeKey(f: Finding): ResourceAt {
    ResourceAt(f.resource, f.target)
  }

  /** Severity first; on equal severity a finding backed by the guide beats one by pluto. */
  function MergeScore(f: Finding): int {
    2 * Rank(f.status) + if f.scanner == Rag then 1 else 0
  }

  function Merged(groups: seq<seq<Finding>>): seq<Finding> {
    Rows(Join(groups), MergeKey, MergeScore)
  }

  /** `merge_findings`. */
  method MergeFindings(groups: seq<seq<Finding>>) returns (merged: seq<Finding>)
    ensures merged == Merged(groups)
  {
    var best := Empty();
    ghost var seen := [];
    HoldsEmpty(MergeKey, MergeScore);
    for g := 0 to |groups|
      invariant seen == Join(groups[..g]) && Holds(best, seen, MergeKey, MergeScore)
    {
      best := MergeGroup(best, seen, groups[g]);
      seen := seen + groups[g];
      assert groups[..g + 1][..g] == groups[..g];
    }
    assert groups[..|groups|] == groups;
    HoldsRows(best, seen, MergeKey, MergeScore);
    merged := Values(best);
  }

  /** The inner loop, over one group. */
  method MergeGroup(before: Dict<ResourceAt, Finding>, ghost seen: seq<Finding>, group: seq<Finding>)
    returns (best: Dict<ResourceAt, Finding>)
    requires Holds(before, seen, MergeKey, MergeScore)
    ensures Holds(best, seen + group, MergeKey, MergeScore)
  {
    best := before;
    assert seen + group[..0] == seen;
    for i := 0 to |group|
      invariant Holds(best, seen + group[..i], MergeKey, MergeScore)
    {
      var f := group[i];
      HoldsNext(best, seen + group[..i], f, MergeKey, MergeScore);
      var key := MergeKey(f);
      if key !in best.at {
        best := Put(best, key, f);
      } else {
        var cur := best.at[key];
        if Rank(f.status) > Rank(cur.status) {
          best := Put(best, key, f);
        } else if Rank(f.status) == Rank(cur.status) && cur.scanner != Rag && f.scanner == Rag {
          best := Put(best, key, f);
        }
      }
      assert seen + group[..i] + [f] == seen + group[..i + 1];
    }
    assert group[..|group|] == group;
  }

  // ---------------------------------------------------------------- summary

  function ResourceOf(f: Finding): Resource {
    f.resource
  }

  function StatusScore(f: Finding): int {
    Rank(f.status)
  }

  function Summary(findings: seq<Finding>): seq<Finding> {
    Rows(findings, ResourceOf, StatusScore)
  }

  /** `summarize_deprecated_apis`. */
  method SummarizeDeprecatedApis(findings: seq<Finding>) returns (summary: seq<Finding>)
    ensures summary == Summary(findings)
  {
    var best := Empty();
    HoldsEmpty(ResourceOf, StatusScore);
    for i := 0 to |findings|
      invariant Holds(best, findings[..i], ResourceOf, StatusScore)
    {
      var f := findings[i];
      HoldsNext(best, findings[..i], f, ResourceOf, StatusScore);
      if f.resource !in best.at || Rank(f.status) > Rank(best.at[f.resource].status) {
        best := Put(best, f.resource, f);
      }
      assert findings[..i + 1] == findings[..i] + [f];
    }
    assert findings[..|findings|] == findings;
    HoldsRows(best, findings, ResourceOf, StatusScore);
    summary := Values(best);
  }
}
