/** What the merged and summarised findings say about the raw ones. */
module EarliestWorst {
  import opened ApiSummary
  import opened DeprecatedApi
  import opened Ranking
  import opened Traces
  import opened Versions
  import opened Wrappers

  // ---------------------------------------------------------------- merge

  lemma JoinTwo(a: seq<Finding>, b: seq<Finding>)
    ensures Join([a]) == a && Join([a, b]) == a + b
  {
    assert [a][..0] == [] && [a, b][..1] == [a];
  }

  lemma JoinThree(a: seq<Finding>, b: seq<Finding>, c: seq<Finding>)
    ensures Join([a, b, c]) == a + b + c
  {
    JoinTwo(a, b);
    assert [a, b, c][..2] == [a, b];
  }

  /** Merging is associative over groups, and merging again changes nothing. */
  lemma MergeRegroups(a: seq<Finding>, b: seq<Finding>, c: seq<Finding>)
    ensures Merged([Merged([a, b]), c]) == Merged([a, b, c]) == Merged([a, Merged([b, c])])
    ensures Merged([Merged([a])]) == Merged([a])
  {
    JoinTwo(a, b);
    JoinTwo(b, c);
    JoinTwo(Merged([a, b]), c);
    JoinTwo(a, Merged([b, c]));
    JoinTwo(Merged([a]), []);
    JoinThree(a, b, c);
    RowsAbsorb(a, b, c, MergeKey, MergeScore);
    RowsAbsorbLeft(a + b, c, MergeKey, MergeScore);
  }

  /** The row for one resource at one minor, if there is one. */
  function RowFor(groups: seq<seq<Finding>>, k: ResourceAt): Option<Finding> {
    Best(Join(groups), MergeKey, MergeScore, k)
  }

  /** Rows are exactly the per-key winners: none lost, none invented, no key twice. */
  lemma MergedRows(groups: seq<seq<Finding>>, k: ResourceAt)
    ensures RowFor(groups, k).Some? <==> exists f :: f in Join(groups) && MergeKey(f) == k
    ensures RowFor(groups, k).Some? <==> exists i :: 0 <= i < |Merged(groups)| && MergeKey(Merged(groups)[i]) == k
    ensures forall i :: 0 <= i < |Merged(groups)| && MergeKey(Merged(groups)[i]) == k ==>
      RowFor(groups, k) == Some(Merged(groups)[i])
  {
    var raw := Join(groups);
    KeyHasBest(raw, MergeKey, MergeScore, k);
    RowsExact(raw, MergeKey, MergeScore);
    if f :| f in raw && MergeKey(f) == k {
      var j :| 0 <= j < |raw| && raw[j] == f;
      KeyCovers(raw, MergeKey, j);
    }
    if RowFor(groups, k).Some? {
      var i :| 0 <= i < |Keys(raw, MergeKey)| && Keys(raw, MergeKey)[i] == k;
      assert MergeKey(Merged(groups)[i]) == k;
    }
  }

  /** The verdict for a resource at a minor depends on neither the order of the groups nor the
      order within them: same findings, same status and same kind of evidence. */
  lemma MergeOrderFree(groups: seq<seq<Finding>>, others: seq<seq<Finding>>, k: ResourceAt)
    requires multiset(Join(groups)) == multiset(Join(others))
    ensures RowFor(groups, k).Some? <==> RowFor(others, k).Some?
    ensures RowFor(groups, k).Some? ==>
      && RowFor(groups, k).value.status == RowFor(others, k).value.status
      && RowFor(groups, k).value.scanner == RowFor(others, k).value.scanner
  {
    var a, b := Join(groups), Join(others);
    forall x
      ensures x in a <==> x in b
    {
      assert x in a <==> x in multiset(a);
      assert x in b <==> x in multiset(b);
    }
    OrderFree(a, b, MergeKey, MergeScore, k);
    if RowFor(groups, k).Some? {
      ScoreDecodes(RowFor(groups, k).value, RowFor(others, k).value);
    }
  }

  lemma ScoreDecodes(f: Finding, g: Finding)
    ensures MergeScore(f) == MergeScore(g) <==> f.status == g.status && f.scanner == g.scanner
    ensures MergeScore(f) <= MergeScore(g) ==> Rank(f.status) <= Rank(g.status)
  {
  }

  /** A guide-backed finding of maximal severity for its key always wins over pluto's. */
  lemma GuideWinsTie(groups: seq<seq<Finding>>, f: Finding)
    requires f in Join(groups) && f.scanner == Rag
    requires forall g :: g in Join(groups) && MergeKey(g) == MergeKey(f) ==> Rank(g.status) <= Rank(f.status)
    ensures RowFor(groups, MergeKey(f)).Some?
    ensures RowFor(groups, MergeKey(f)).value.scanner == Rag && RowFor(groups, MergeKey(f)).value.status == f.status
  {
    var raw := Join(groups);
    var j :| 0 <= j < |raw| && raw[j] == f;
    KeyCovers(raw, MergeKey, j);
    KeyHasBest(raw, MergeKey, MergeScore, MergeKey(f));
    var i := BestAt(raw, MergeKey, MergeScore, MergeKey(f));
    assert raw[i] in raw;
    ScoreDecodes(f, raw[i]);
  }

  // ---------------------------------------------------------------- charts never block

  /** A finding in a chart that is not installed is not a blocker. */
  ghost predicate ChartSafe(f: Finding) {
    FromHelm(f.foundIn) ==> f.status != UpgradeBlocker
  }

  lemma {:induction false} JudgedChartSafe(obs: Observed, entry: Entry, minors: seq<string>)
    requires Judged(obs, Judge(entry, obs.foundIn), minors).Some?
    ensures forall f :: f in Judged(obs, Judge(entry, obs.foundIn), minors).value ==> ChartSafe(f)
    decreases |minors|
  {
    if minors == [] {
    } else {
      JudgedChartSafe(obs, entry, minors[..|minors|-1]);
      ChartVerdict(entry, minors[|minors|-1], obs.foundIn);
    }
  }

  lemma ChartVerdict(entry: Entry, minor: string, foundIn: string)
    ensures FromHelm(foundIn) ==> Judge(entry, foundIn)(minor) != Some(UpgradeBlocker)
  {
  }

  lemma {:induction false} GuideChartSafe(observed: seq<Observed>, guide: seq<Entry>, minors: seq<string>)
    requires JudgedAll(observed, guide, minors).Some?
    ensures forall f :: f in JudgedAll(observed, guide, minors).value ==> ChartSafe(f)
    decreases |observed|
  {
    if observed == [] {
    } else {
      GuideChartSafe(observed[..|observed|-1], guide, minors);
      OneChartSafe(observed[|observed|-1], guide, minors);
    }
  }

  lemma OneChartSafe(obs: Observed, guide: seq<Entry>, minors: seq<string>)
    requires JudgedOne(obs, guide, minors).Some?
    ensures forall f :: f in JudgedOne(obs, guide, minors).value ==> ChartSafe(f)
  {
    var entry := Lookup(guide, obs.resource.kind, obs.resource.apiVersion);
    if entry.Some? && obs.resource.apiVersion != "" {
      JudgedChartSafe(obs, entry.value, minors);
    }
  }

  /** Whatever was found only in a chart is a blocker nowhere: not among the findings of the
      guide or of pluto, not after the merge, not in the table. */
  lemma ChartsNeverBlock(observed: seq<Observed>, guide: seq<Entry>, minors: seq<string>, items: seq<PlutoItem>, target: string)
    requires JudgedAll(observed, guide, minors).Some?
    ensures var rag, pluto := JudgedAll(observed, guide, minors).value, PlutoFindings(items, target);
      && (forall f :: f in rag + pluto ==> ChartSafe(f))
      && (forall f :: f in Merged([rag, pluto]) ==> ChartSafe(f))
      && (forall f :: f in Summary(Merged([rag, pluto])) ==> ChartSafe(f))
  {
    var rag, pluto := JudgedAll(observed, guide, minors).value, PlutoFindings(items, target);
    GuideChartSafe(observed, guide, minors);
    JoinTwo(rag, pluto);
    RowsStayIn(rag + pluto, MergeKey, MergeScore);
    RowsStayIn(Merged([rag, pluto]), ResourceOf, StatusScore);
  }

  // ---------------------------------------------------------------- the raw findings climb the path

  predicate AtMostMinor(a: string, b: string) {
    MinorTuple(a).Some? && MinorTuple(b).Some? && PairAtMost(MinorTuple(a).value, MinorTuple(b).value)
  }

  /** If the finding at `q` is the first of its resource and target, no earlier finding of the
      resource is about a later minor. */
  ghost predicate ClimbsAt(raw: seq<Finding>, p: int, q: int) {
    0 <= p < q < |raw| && raw[p].resource == raw[q].resource && FirstWithKey(raw, MergeKey, q) ==>
      AtMostMinor(raw[p].target, raw[q].target)
  }

  ghost predicate Climbs(raw: seq<Finding>) {
    forall p, q :: ClimbsAt(raw, p, q)
  }

  /** Every finding of an observation is about that resource and a minor of the path. */
  ghost predicate OfBlock(fs: seq<Finding>, resource: Resource, minors: seq<string>, i: int) {
    0 <= i < |fs| ==> fs[i].resource == resource && fs[i].target in minors
  }

  ghost predicate BlockClimbs(fs: seq<Finding>, i: int, j: int) {
    0 <= i < j < |fs| ==> AtMostMinor(fs[i].target, fs[j].target)
  }

  lemma BlockShape(obs: Observed, guide: seq<Entry>, minors: seq<string>)
    requires Ascending(minors) && JudgedOne(obs, guide, minors).Some?
    ensures forall i :: OfBlock(JudgedOne(obs, guide, minors).value, obs.resource, minors, i)
    ensures forall i, j :: BlockClimbs(JudgedOne(obs, guide, minors).value, i, j)
  {
    var fs := JudgedOne(obs, guide, minors).value;
    var entry := Lookup(guide, obs.resource.kind, obs.resource.apiVersion);
    if obs.resource.apiVersion != "" && entry.Some? {
      var judge := Judge(entry.value, obs.foundIn);
      PathWorsens(entry.value, obs.foundIn, minors);
      var from := FlaggedSuffix(obs, judge, minors);
      SuffixShape(obs, judge, minors, fs, from);
    }
  }

  lemma SuffixShape(obs: Observed, judge: string -> Option<Status>, minors: seq<string>, fs: seq<Finding>, from: int)
    requires Ascending(minors) && Suffix(obs, judge, minors, fs, from)
    ensures forall i :: OfBlock(fs, obs.resource, minors, i)
    ensures forall i, j :: BlockClimbs(fs, i, j)
  {
    forall i
      ensures OfBlock(fs, obs.resource, minors, i)
    {
      assert FlagsAt(obs, judge, minors, fs, from, i);
    }
    forall i, j
      ensures BlockClimbs(fs, i, j)
    {
      if 0 <= i < j < |fs| {
        assert FlagsAt(obs, judge, minors, fs, from, i) && FlagsAt(obs, judge, minors, fs, from, j);
        assert PairLess(MinorTuple(minors[from + i]).value, MinorTuple(minors[from + j]).value);
      }
    }
  }

  lemma {:induction false} TargetsOnPath(observed: seq<Observed>, guide: seq<Entry>, minors: seq<string>, i: nat)
    requires Ascending(minors) && JudgedAll(observed, guide, minors).Some?
    requires i < |JudgedAll(observed, guide, minors).value|
    ensures JudgedAll(observed, guide, minors).value[i].target in minors
  {
    var n := |observed| - 1;
    var before := JudgedAll(observed[..n], guide, minors).value;
    if i < |before| {
      TargetsOnPath(observed[..n], guide, minors, i);
    } else {
      BlockShape(observed[n], guide, minors);
      assert OfBlock(JudgedOne(observed[n], guide, minors).value, observed[n].resource, minors, i - |before|);
    }
  }

  /** Whatever a copy of a resource adds has been reported before, if any copy of it was. */
  lemma {:induction false} SeenBefore(observed: seq<Observed>, guide: seq<Entry>, minors: seq<string>, p: nat, obs: Observed, t: nat)
    returns (r: nat)
    requires Ascending(minors) && JudgedAll(observed, guide, minors).Some? && JudgedOne(obs, guide, minors).Some?
    requires p < |JudgedAll(observed, guide, minors).value| && t < |JudgedOne(obs, guide, minors).value|
    requires JudgedAll(observed, guide, minors).value[p].resource == obs.resource
    ensures r < |JudgedAll(observed, guide, minors).value|
    ensures MergeKey(JudgedAll(observed, guide, minors).value[r]) == MergeKey(JudgedOne(obs, guide, minors).value[t])
  {
    var n := |observed| - 1;
    var before := JudgedAll(observed[..n], guide, minors).value;
    if p < |before| {
      r := SeenBefore(observed[..n], guide, minors, p, obs, t);
    } else {
      CopyReports(observed[n], obs, guide, minors, p - |before|, t);
      r := |before| + t;
    }
  }

  /** If one observation reports the resource of another, it reports it at the same minors. */
  lemma CopyReports(own: Observed, obs: Observed, guide: seq<Entry>, minors: seq<string>, u: nat, t: nat)
    requires Ascending(minors) && JudgedOne(own, guide, minors).Some? && JudgedOne(obs, guide, minors).Some?
    requires u < |JudgedOne(own, guide, minors).value| && t < |JudgedOne(obs, guide, minors).value|
    requires JudgedOne(own, guide, minors).value[u].resource == obs.resource
    ensures t < |JudgedOne(own, guide, minors).value|
    ensures MergeKey(JudgedOne(own, guide, minors).value[t]) == MergeKey(JudgedOne(obs, guide, minors).value[t])
  {
    var fs, gs := JudgedOne(own, guide, minors).value, JudgedOne(obs, guide, minors).value;
    BlockShape(own, guide, minors);
    BlockShape(obs, guide, minors);
    assert OfBlock(fs, own.resource, minors, u);
    CopiesFlaggedAlike(own, obs, guide, minors);
    assert SameTarget(fs, gs, t) && OfBlock(fs, own.resource, minors, t) && OfBlock(gs, obs.resource, minors, t);
  }

  /** A finding of `b` about a resource of `a`, but about a new minor, is about no earlier one. */
  ghost predicate CrossesAt(a: seq<Finding>, b: seq<Finding>, p: int, q: int) {
    && 0 <= p < |a| && 0 <= q < |b| && a[p].resource == b[q].resource
    && (forall r :: 0 <= r < |a| ==> MergeKey(a[r]) != MergeKey(b[q])) ==>
      AtMostMinor(a[p].target, b[q].target)
  }

  lemma ClimbsConcat(a: seq<Finding>, b: seq<Finding>)
    requires Climbs(a) && forall i, j :: BlockClimbs(b, i, j)
    requires forall p, q :: CrossesAt(a, b, p, q)
    ensures Climbs(a + b)
  {
    var raw: seq<Finding> := a + b;
    forall p, q
      ensures ClimbsAt(raw, p, q)
    {
      if 0 <= p < q < |raw| && raw[p].resource == raw[q].resource && FirstWithKey(raw, MergeKey, q) {
        forall r | 0 <= r < q
          ensures MergeKey(raw[r]) != MergeKey(raw[q])
        {
        }
        if q < |a| {
          forall r | 0 <= r < q
            ensures MergeKey(a[r]) != MergeKey(a[q])
          {
            assert a[r] == raw[r];
          }
          assert ClimbsAt(a, p, q);
        } else if p >= |a| {
          assert BlockClimbs(b, p - |a|, q - |a|);
        } else {
          forall r | 0 <= r < |a|
            ensures MergeKey(a[r]) != MergeKey(b[q - |a|])
          {
            assert a[r] == raw[r];
          }
          assert CrossesAt(a, b, p, q - |a|);
        }
      }
    }
  }

  lemma {:induction false} JudgedClimbs(observed: seq<Observed>, guide: seq<Entry>, minors: seq<string>)
    requires Ascending(minors) && JudgedAll(observed, guide, minors).Some?
    ensures Climbs(JudgedAll(observed, guide, minors).value)
  {
    if observed == [] {
    } else {
      var n := |observed| - 1;
      JudgedClimbs(observed[..n], guide, minors);
      BlockShape(observed[n], guide, minors);
      forall p, q
        ensures CrossesAt(JudgedAll(observed[..n], guide, minors).value, JudgedOne(observed[n], guide, minors).value, p, q)
      {
        CopyCrosses(observed[..n], guide, minors, observed[n], p, q);
      }
      ClimbsConcat(JudgedAll(observed[..n], guide, minors).value, JudgedOne(observed[n], guide, minors).value);
    }
  }

  lemma CopyCrosses(observed: seq<Observed>, guide: seq<Entry>, minors: seq<string>, obs: Observed, p: int, q: int)
    requires Ascending(minors) && JudgedAll(observed, guide, minors).Some? && JudgedOne(obs, guide, minors).Some?
    ensures CrossesAt(JudgedAll(observed, guide, minors).value, JudgedOne(obs, guide, minors).value, p, q)
  {
    var a, b := JudgedAll(observed, guide, minors).value, JudgedOne(obs, guide, minors).value;
    if 0 <= p < |a| && 0 <= q < |b| && a[p].resource == b[q].resource {
      BlockShape(obs, guide, minors);
      assert OfBlock(b, obs.resource, minors, q);
      var r := SeenBefore(observed, guide, minors, p, obs, q);
    }
  }

  /** Pluto's findings, all about a minor that reads as the last one, keep the climb. */
  lemma PlutoClimbs(observed: seq<Observed>, guide: seq<Entry>, minors: seq<string>, pluto: seq<Finding>, last: string)
    requires Ascending(minors) && minors != [] && JudgedAll(observed, guide, minors).Some?
    requires forall f :: f in pluto ==> f.target == last
    requires MinorTuple(last) == MinorTuple(minors[|minors|-1])
    ensures Climbs(JudgedAll(observed, guide, minors).value + pluto)
  {
    var rag := JudgedAll(observed, guide, minors).value;
    JudgedClimbs(observed, guide, minors);
    LastIsLast(minors, minors[|minors|-1], last);
    forall p, q
      ensures CrossesAt(rag, pluto, p, q)
    {
      if 0 <= p < |rag| && 0 <= q < |pluto| {
        TargetsOnPath(observed, guide, minors, p);
        LastIsLast(minors, rag[p].target, last);
      }
    }
    ClimbsConcat(rag, pluto);
  }

  lemma LastIsLast(minors: seq<string>, m: string, last: string)
    requires Ascending(minors) && m in minors
    requires MinorTuple(last) == MinorTuple(minors[|minors|-1])
    ensures AtMostMinor(m, last) && AtMostMinor(last, last)
  {
    var i :| 0 <= i < |minors| && minors[i] == m;
    if i < |minors| - 1 {
      assert PairLess(MinorTuple(minors[i]).value, MinorTuple(minors[|minors|-1]).value);
    }
  }

  // ---------------------------------------------------------------- earliest and worst

  /** `row` stands for its resource: no raw finding is worse, and those as bad come no earlier. */
  ghost predicate EarliestWorst(raw: seq<Finding>, row: Finding) {
    && row in raw
    && forall f :: f in raw && f.resource == row.resource ==>
      && Rank(f.status) <= Rank(row.status)
      && (f.status == row.status ==> AtMostMinor(row.target, f.target))
  }

  /** In-place replacement keeps the order: merged rows of a resource climb the path. */
  lemma MergedClimbs(raw: seq<Finding>, i: nat, j: nat)
    requires Climbs(raw) && i < j < |Rows(raw, MergeKey, MergeScore)|
    requires Rows(raw, MergeKey, MergeScore)[i].resource == Rows(raw, MergeKey, MergeScore)[j].resource
    ensures AtMostMinor(Rows(raw, MergeKey, MergeScore)[i].target, Rows(raw, MergeKey, MergeScore)[j].target)
  {
    RowsExact(raw, MergeKey, MergeScore);
    var p, q := KeysInOrder(raw, MergeKey, i, j);
    assert ClimbsAt(raw, p, q);
  }

  /** The row of a resource in the summary of climbing findings is its earliest worst. */
  lemma SummaryRow(raw: seq<Finding>, row: Finding, f: Finding)
    requires Climbs(raw) && row in Summary(Rows(raw, MergeKey, MergeScore))
    requires f in raw && f.resource == row.resource
    requires MinorTuple(f.target).Some?
    ensures Rank(f.status) <= Rank(row.status)
    ensures f.status == row.status ==> AtMostMinor(row.target, f.target)
  {
    var merged := Rows(raw, MergeKey, MergeScore);
    var i := PickedRow(merged, row);
    var j := MergedRow(raw, f);
    assert Rank(merged[j].status) <= Rank(row.status);
    if f.status == row.status && i < j {
      MergedClimbs(raw, i, j);
    }
  }

  /** A row of the summary is the first of the worst of its resource. */
  lemma PickedRow(merged: seq<Finding>, row: Finding) returns (i: nat)
    requires row in Summary(merged)
    ensures i < |merged| && merged[i] == row
    ensures forall j :: 0 <= j < |merged| && merged[j].resource == row.resource ==> Rank(merged[j].status) <= Rank(row.status)
    ensures forall j :: 0 <= j < i && merged[j].resource == row.resource ==> Rank(merged[j].status) < Rank(row.status)
  {
    var n :| 0 <= n < |Summary(merged)| && Summary(merged)[n] == row;
    RowsExact(merged, ResourceOf, StatusScore);
    assert ResourceOf(row) == Keys(merged, ResourceOf)[n];
    KeyHasBest(merged, ResourceOf, StatusScore, row.resource);
    i := BestAt(merged, ResourceOf, StatusScore, row.resource);
    forall j | 0 <= j < |merged| && merged[j].resource == row.resource
      ensures Rank(merged[j].status) <= Rank(row.status) && (j < i ==> Rank(merged[j].status) < Rank(row.status))
    {
      assert ResourceOf(merged[j]) == row.resource && StatusScore(merged[j]) == Rank(merged[j].status);
    }
  }

  /** A raw finding has a merged row for its resource and minor that is at least as severe. */
  lemma MergedRow(raw: seq<Finding>, f: Finding) returns (j: nat)
    requires f in raw
    ensures j < |Rows(raw, MergeKey, MergeScore)|
    ensures MergeKey(Rows(raw, MergeKey, MergeScore)[j]) == MergeKey(f)
    ensures Rank(f.status) <= Rank(Rows(raw, MergeKey, MergeScore)[j].status)
  {
    var p :| 0 <= p < |raw| && raw[p] == f;
    j := RowAbove(raw, MergeKey, MergeScore, p);
    ScoreDecodes(f, Rows(raw, MergeKey, MergeScore)[j]);
  }

  /** The chain evaluate, merge with pluto, summarise: each resource that any raw finding is
      about has exactly one row, whose status is the maximum over all its raw findings and
      whose minor is the smallest at which that maximum is reached. */
  lemma SummaryIsEarliestWorst(observed: seq<Observed>, guide: seq<Entry>, items: seq<PlutoItem>,
                               current: string, target: string, path: seq<string>)
    requires UpgradePath(current, target) == Ok(path)
    requires Evaluate(observed, guide, path).Some?
    ensures var rag, pluto := Evaluate(observed, guide, path).value, PlutoFindings(items, PlutoTarget(target));
      var table := Summary(Merged([rag, pluto]));
      && (forall row :: row in table ==> EarliestWorst(rag + pluto, row))
      && (forall f :: f in rag + pluto ==> exists i :: 0 <= i < |table| && table[i].resource == f.resource)
      && (forall i, j :: 0 <= i < j < |table| ==> table[i].resource != table[j].resource)
  {
    var cur, tgt := ParseVersion(current).value, ParseVersion(target).value;
    var minors := TargetMinors(path).value;
    var rag, pluto := Evaluate(observed, guide, path).value, PlutoFindings(items, PlutoTarget(target));
    PathMinors(current, target, path, cur, tgt);
    PlutoTargetIsLast(current, target, path, cur, tgt);
    PlutoClimbs(observed, guide, minors, pluto, PlutoTarget(target));
    JoinTwo(rag, pluto);
    forall f: Finding | f in rag + pluto
      ensures MinorTuple(f.target).Some?
    {
      TargetReadable(observed, guide, minors, pluto, PlutoTarget(target), f);
    }
    SummaryOfClimb(rag + pluto);
  }

  lemma TargetReadable(observed: seq<Observed>, guide: seq<Entry>, minors: seq<string>, pluto: seq<Finding>, last: string, f: Finding)
    requires Ascending(minors) && JudgedAll(observed, guide, minors).Some?
    requires forall g :: g in pluto ==> g.target == last
    requires MinorTuple(last).Some? && f in JudgedAll(observed, guide, minors).value + pluto
    ensures MinorTuple(f.target).Some?
  {
    var rag := JudgedAll(observed, guide, minors).value;
    if f in rag {
      var i :| 0 <= i < |rag| && rag[i] == f;
      TargetsOnPath(observed, guide, minors, i);
    }
  }

  lemma SummaryOfClimb(raw: seq<Finding>)
    requires Climbs(raw) && forall f :: f in raw ==> MinorTuple(f.target).Some?
    ensures var table := Summary(Rows(raw, MergeKey, MergeScore));
      && (forall row :: row in table ==> EarliestWorst(raw, row))
      && (forall f :: f in raw ==> exists i :: 0 <= i < |table| && table[i].resource == f.resource)
      && (forall i, j :: 0 <= i < j < |table| ==> table[i].resource != table[j].resource)
  {
    var merged := Rows(raw, MergeKey, MergeScore);
    var table := Summary(merged);
    RowsExact(raw, MergeKey, MergeScore);
    RowsExact(merged, ResourceOf, StatusScore);
    forall row | row in table
      ensures EarliestWorst(raw, row)
    {
      forall f | f in raw && f.resource == row.resource
        ensures Rank(f.status) <= Rank(row.status)
        ensures f.status == row.status ==> AtMostMinor(row.target, f.target)
      {
        SummaryRow(raw, row, f);
      }
    }
    forall f | f in raw
      ensures exists i :: 0 <= i < |table| && table[i].resource == f.resource
    {
      var p :| 0 <= p < |raw| && raw[p] == f;
      var j := RowAbove(raw, MergeKey, MergeScore, p);
      var i := RowAbove(merged, ResourceOf, StatusScore, j);
    }
  }
}
