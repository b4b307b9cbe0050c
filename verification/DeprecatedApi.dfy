/** Deprecated and removed APIs: the verdict on every observed manifest at every minor of the
    path, the cross-check by pluto, the merge of both and the summary per resource. */
module DeprecatedApi {
  import opened Versions
  import opened Wrappers

  datatype Status = OK | Unknown | ActionRequired | UpgradeBlocker

  function Rank(s: Status): nat {
    match s
    case OK => 0
    case Unknown => 1
    case ActionRequired => 2
    case UpgradeBlocker => 3
  }

  datatype Scanner = Rag | Pluto

  datatype Resource = Resource(kind: string, apiVersion: string, name: Option<string>, namespace: Option<string>)

  /** `found_in` is "live" or "helm:<release>". */
  datatype Observed = Observed(resource: Resource, foundIn: string)

  datatype Finding = Finding(resource: Resource, target: string, status: Status, scanner: Scanner, foundIn: string)

  /** An entry of the deprecated API guide; a missing or empty version says nothing. */
  datatype Entry = Entry(kind: string, apiVersion: string, deprecatedIn: Option<string>, removedIn: Option<string>)

  /** `lookup_deprecated_api`: the first entry for the kind and API version. */
  function Lookup(guide: seq<Entry>, kind: string, apiVersion: string): Option<Entry> {
    if guide == [] then None
    else if IsAbout(guide[0], kind, apiVersion) then Some(guide[0])
    else Lookup(guide[1..], kind, apiVersion)
  }

  predicate IsAbout(e: Entry, kind: string, apiVersion: string) {
    e.kind == kind && e.apiVersion == apiVersion
  }

  /** Position `i` holds the first entry for the kind and API version. */
  ghost predicate FirstEntry(guide: seq<Entry>, kind: string, apiVersion: string, i: int) {
    0 <= i < |guide| && IsAbout(guide[i], kind, apiVersion) && forall j :: 0 <= j < i ==> !IsAbout(guide[j], kind, apiVersion)
  }

  /** The first entry about an API decides; without one there is no verdict. */
  lemma {:induction false} LookupIsFirst(guide: seq<Entry>, kind: string, apiVersion: string, i: int)
    ensures FirstEntry(guide, kind, apiVersion, i) ==> Lookup(guide, kind, apiVersion) == Some(guide[i])
    ensures Lookup(guide, kind, apiVersion).None? <==> forall j :: 0 <= j < |guide| ==> !IsAbout(guide[j], kind, apiVersion)
    decreases |guide|
  {
    if guide == [] {
    } else {
      var rest := guide[1..];
      LookupIsFirst(rest, kind, apiVersion, i - 1);
      assert forall j :: 0 <= j < |rest| ==> rest[j] == guide[j + 1];
      assert forall j :: 0 < j < |guide| ==> guide[j] == rest[j - 1];
    }
  }

  function Lower(c: char): char {
    if 'A' <= c <= 'Z' then (c as int + 32) as char else c
  }

  predicate LowerAt(s: string, word: string, i: nat) {
    i + |word| <= |s| && forall j :: 0 <= j < |word| ==> Lower(s[i + j]) == word[j]
  }

  predicate ContainsLower(s: string, word: string) {
    exists i: nat :: i <= |s| && LowerAt(s, word, i)
  }

  predicate IsPrerelease(apiVersion: string) {
    ContainsLower(apiVersion, "beta") || ContainsLower(apiVersion, "alpha")
  }

  predicate FromHelm(foundIn: string) {
    "helm" <= foundIn
  }

  /** `since and _minor_tuple(minor) >= _minor_tuple(since)`; None stands for the ValueError. */
  function Reached(minor: string, since: Option<string>): Option<bool> {
    if since.None? || since.value == "" then Some(false)
    else
      match (MinorTuple(minor), MinorTuple(since.value))
      case (Some(m), Some(s)) => Some(PairAtMost(s, m))
      case _ => None
  }

  /** Status of an API found in `foundIn` once the cluster is at `minor`. */
  function Verdict(entry: Entry, minor: string, foundIn: string): Option<Status> {
    match Reached(minor, entry.removedIn)
    case None => None
    case Some(true) => Some(if FromHelm(foundIn) then ActionRequired else UpgradeBlocker)
    case Some(false) =>
      match Reached(minor, entry.deprecatedIn)
      case None => None
      case Some(reached) => Some(if reached then ActionRequired else OK)
  }

  /** How an entry judges the minors, for an API found in `foundIn`. */
  function Judge(entry: Entry, foundIn: string): string -> Option<Status> {
    minor => Verdict(entry, minor, foundIn)
  }

  function Flag(obs: Observed, status: Status, minor: string): Finding {
    Finding(obs.resource, minor, status, Rag, obs.foundIn)
  }

  /** The findings of one observation with a guide entry: one per minor that is not OK. */
  function Judged(obs: Observed, judge: string -> Option<Status>, minors: seq<string>): Option<seq<Finding>> {
    if minors == [] then Some([])
    else
      match (Judged(obs, judge, minors[..|minors|-1]), judge(minors[|minors|-1]))
      case (Some(fs), Some(s)) => Some(if s == OK then fs else fs + [Flag(obs, s, minors[|minors|-1])])
      case _ => None
  }

  /** The findings of one observation; None stands for the ValueError or IndexError. */
  function JudgedOne(obs: Observed, guide: seq<Entry>, minors: seq<string>): Option<seq<Finding>> {
    if obs.resource.apiVersion == "" then Some([])
    else
      match Lookup(guide, obs.resource.kind, obs.resource.apiVersion)
      case Some(entry) => Judged(obs, Judge(entry, obs.foundIn), minors)
      case None =>
        if !IsPrerelease(obs.resource.apiVersion) then Some([])
        else if minors == [] then None
        else Some([Flag(obs, Unknown, minors[0])])
  }

  function JudgedAll(observed: seq<Observed>, guide: seq<Entry>, minors: seq<string>): Option<seq<Finding>> {
    if observed == [] then Some([])
    else
      match (JudgedAll(observed[..|observed|-1], guide, minors), JudgedOne(observed[|observed|-1], guide, minors))
      case (Some(fs), Some(gs)) => Some(fs + gs)
      case _ => None
  }

  function Evaluate(observed: seq<Observed>, guide: seq<Entry>, path: seq<string>): Option<seq<Finding>> {
    match TargetMinors(path)
    case None => None
    case Some(minors) => JudgedAll(observed, guide, minors)
  }

  // ---------------------------------------------------------------- the loops

  lemma {:induction false} JudgedStuck(obs: Observed, judge: string -> Option<Status>, minors: seq<string>, n: nat)
    requires n <= |minors| && Judged(obs, judge, minors[..n]).None?
    ensures Judged(obs, judge, minors).None?
    decreases |minors|
  {
    if n == |minors| {
      assert minors[..n] == minors;
    } else {
      assert minors[..|minors|-1][..n] == minors[..n];
      JudgedStuck(obs, judge, minors[..|minors|-1], n);
    }
  }

  lemma {:induction false} JudgedAllStuck(observed: seq<Observed>, guide: seq<Entry>, minors: seq<string>, n: nat)
    requires n <= |observed| && JudgedAll(observed[..n], guide, minors).None?
    ensures JudgedAll(observed, guide, minors).None?
    decreases |observed|
  {
    if n == |observed| {
      assert observed[..n] == observed;
    } else {
      assert observed[..|observed|-1][..n] == observed[..n];
      JudgedAllStuck(observed[..|observed|-1], guide, minors, n);
    }
  }

  /** `evaluate_deprecated_apis`: nested loops that append to `findings` and raise on the
      first unreadable version. */
  method EvaluateDeprecatedApis(observed: seq<Observed>, guide: seq<Entry>, path: seq<string>)
    returns (r: Option<seq<Finding>>)
    ensures r == Evaluate(observed, guide, path)
  {
    var targets := TargetMinors(path);
    if targets.None? {
      return None;
    }
    var minors := targets.value;
    var findings := [];
    for i := 0 to |observed|
      invariant JudgedAll(observed[..i], guide, minors) == Some(findings)
    {
      assert observed[..i + 1][..i] == observed[..i];
      var more := JudgeOne(observed[i], guide, minors);
      if more.None? {
        JudgedAllStuck(observed, guide, minors, i + 1);
        return None;
      }
      findings := findings + more.value;
    }
    assert observed[..|observed|] == observed;
    r := Some(findings);
  }

  method JudgeOne(obs: Observed, guide: seq<Entry>, minors: seq<string>) returns (r: Option<seq<Finding>>)
    ensures r == JudgedOne(obs, guide, minors)
  {
    if obs.resource.apiVersion == "" {
      return Some([]);
    }
    var entry := Lookup(guide, obs.resource.kind, obs.resource.apiVersion);
    if entry.None? {
      if !IsPrerelease(obs.resource.apiVersion) {
        return Some([]);
      }
      return if minors == [] then None else Some([Flag(obs, Unknown, minors[0])]);
    }
    r := JudgeAlong(obs, Judge(entry.value, obs.foundIn), minors);
  }

  /** The inner loop over the minors of the path. */
  method JudgeAlong(obs: Observed, judge: string -> Option<Status>, minors: seq<string>)
    returns (r: Option<seq<Finding>>)
    ensures r == Judged(obs, judge, minors)
  {
    var findings := [];
    for i := 0 to |minors|
      invariant Judged(obs, judge, minors[..i]) == Some(findings)
    {
      assert minors[..i + 1][..i] == minors[..i];
      var status := judge(minors[i]);
      if status.None? {
        JudgedStuck(obs, judge, minors, i + 1);
        return None;
      }
      if status.value != OK {
        findings := findings + [Flag(obs, status.value, minors[i])];
      }
    }
    assert minors[..|minors|] == minors;
    r := Some(findings);
  }

  // ---------------------------------------------------------------- verdicts along the path

  /** A verdict only worsens at a later minor, and it stays readable. */
  lemma VerdictWorsens(entry: Entry, near: string, far: string, foundIn: string)
    requires MinorTuple(near).Some? && MinorTuple(far).Some?
    requires PairAtMost(MinorTuple(near).value, MinorTuple(far).value)
    requires Verdict(entry, near, foundIn).Some?
    ensures Verdict(entry, far, foundIn).Some?
    ensures Rank(Verdict(entry, near, foundIn).value) <= Rank(Verdict(entry, far, foundIn).value)
  {
  }

  /** A copy found only in a chart is never a blocker, and it is flagged at exactly the minors
      at which a live copy is. */
  lemma HelmVerdict(entry: Entry, minor: string, live: string, helm: string)
    requires FromHelm(helm) && !FromHelm(live)
    ensures Verdict(entry, minor, helm) != Some(UpgradeBlocker)
    ensures Verdict(entry, minor, helm) == Some(OK) <==> Verdict(entry, minor, live) == Some(OK)
    ensures Verdict(entry, minor, helm).None? <==> Verdict(entry, minor, live).None?
    ensures Verdict(entry, minor, live) == Some(UpgradeBlocker) ==> Verdict(entry, minor, helm) == Some(ActionRequired)
    ensures Verdict(entry, minor, live) != Some(UpgradeBlocker) ==>
      Verdict(entry, minor, helm) == Verdict(entry, minor, live)
  {
  }

  /** From minor `i` to a later minor `j`, the judgement stays readable and only worsens. */
  ghost predicate WorsensAt(judge: string -> Option<Status>, minors: seq<string>, i: int, j: int) {
    0 <= i < j < |minors| && judge(minors[i]).Some? ==>
      judge(minors[j]).Some? && Rank(judge(minors[i]).value) <= Rank(judge(minors[j]).value)
  }

  ghost predicate Worsens(judge: string -> Option<Status>, minors: seq<string>) {
    forall i, j :: WorsensAt(judge, minors, i, j)
  }

  lemma PathWorsens(entry: Entry, foundIn: string, minors: seq<string>)
    requires Ascending(minors)
    ensures Worsens(Judge(entry, foundIn), minors)
  {
    forall i, j
      ensures WorsensAt(Judge(entry, foundIn), minors, i, j)
    {
      if 0 <= i < j < |minors| && Verdict(entry, minors[i], foundIn).Some? {
        assert PairLess(MinorTuple(minors[i]).value, MinorTuple(minors[j]).value);
        VerdictWorsens(entry, minors[i], minors[j], foundIn);
      }
    }
  }

  /** Finding `i` flags the minor `i` places after `from`, with the judgement of that minor. */
  ghost predicate FlagsAt(obs: Observed, judge: string -> Option<Status>, minors: seq<string>, fs: seq<Finding>, from: int, i: int) {
    0 <= i < |fs| && 0 <= from + i < |minors| ==>
      && fs[i] == Flag(obs, fs[i].status, minors[from + i])
      && fs[i].status != OK && judge(minors[from + i]) == Some(fs[i].status)
  }

  ghost predicate Suffix(obs: Observed, judge: string -> Option<Status>, minors: seq<string>, fs: seq<Finding>, from: int) {
    && 0 <= from <= |minors| && |fs| == |minors| - from
    && (forall i :: 0 <= i < from ==> judge(minors[i]) == Some(OK))
    && (forall i :: FlagsAt(obs, judge, minors, fs, from, i))
  }

  /** The findings of an observation are exactly a suffix of the path: from the first minor
      that is not OK on, every minor is flagged, each with its own judgement. */
  lemma {:induction false} FlaggedSuffix(obs: Observed, judge: string -> Option<Status>, minors: seq<string>)
    returns (from: int)
    requires Worsens(judge, minors) && Judged(obs, judge, minors).Some?
    ensures Suffix(obs, judge, minors, Judged(obs, judge, minors).value, from)
  {
    if minors == [] {
      from := 0;
    } else {
      var n := |minors| - 1;
      var fs := Judged(obs, judge, minors[..n]).value;
      forall i, j
        ensures WorsensAt(judge, minors[..n], i, j)
      {
        assert WorsensAt(judge, minors, i, j);
      }
      from := FlaggedSuffix(obs, judge, minors[..n]);
      if from < n {
        assert FlagsAt(obs, judge, minors[..n], fs, from, n - 1 - from);
        assert WorsensAt(judge, minors, n - 1, n);
      } else if judge(minors[n]) == Some(OK) {
        from := |minors|;
      }
      SuffixGrows(obs, judge, minors, from);
    }
  }

  lemma SuffixGrows(obs: Observed, judge: string -> Option<Status>, minors: seq<string>, from: int)
    requires minors != [] && Judged(obs, judge, minors).Some?
    requires from <= |minors| && (from == |minors| <==> judge(minors[|minors|-1]) == Some(OK))
    requires Suffix(obs, judge, minors[..|minors|-1], Judged(obs, judge, minors[..|minors|-1]).value,
                    if from == |minors| then from - 1 else from)
    ensures Suffix(obs, judge, minors, Judged(obs, judge, minors).value, from)
  {
    var n := |minors| - 1;
    var fs, gs := Judged(obs, judge, minors[..n]).value, Judged(obs, judge, minors).value;
    forall i
      ensures FlagsAt(obs, judge, minors, gs, from, i)
    {
      assert FlagsAt(obs, judge, minors[..n], fs, if from == |minors| then from - 1 else from, i);
    }
  }

  // ---------------------------------------------------------------- copies of one resource

  ghost predicate SameFlagging(judge: string -> Option<Status>, other: string -> Option<Status>, minor: string) {
    && (judge(minor).None? <==> other(minor).None?)
    && (judge(minor) == Some(OK) <==> other(minor) == Some(OK))
  }

  ghost predicate SameTarget(fs: seq<Finding>, gs: seq<Finding>, i: int) {
    0 <= i < |fs| && i < |gs| ==> fs[i].target == gs[i].target
  }

  lemma {:induction false} FlaggedAlike(a: Observed, judge: string -> Option<Status>,
                                        b: Observed, other: string -> Option<Status>, minors: seq<string>)
    requires forall minor :: SameFlagging(judge, other, minor)
    ensures Judged(a, judge, minors).Some? <==> Judged(b, other, minors).Some?
    ensures Judged(a, judge, minors).Some? ==>
      && |Judged(a, judge, minors).value| == |Judged(b, other, minors).value|
      && forall i :: SameTarget(Judged(a, judge, minors).value, Judged(b, other, minors).value, i)
  {
    if minors == [] {
    } else {
      var n := |minors| - 1;
      FlaggedAlike(a, judge, b, other, minors[..n]);
      assert SameFlagging(judge, other, minors[n]);
      if Judged(a, judge, minors).Some? {
        var fs, gs := Judged(a, judge, minors[..n]).value, Judged(b, other, minors[..n]).value;
        forall i
          ensures SameTarget(Judged(a, judge, minors).value, Judged(b, other, minors).value, i)
        {
          assert SameTarget(fs, gs, i);
        }
      }
    }
  }

  /** Two copies of a resource, live or in any chart, are flagged at the same minors. */
  lemma CopiesFlaggedAlike(a: Observed, b: Observed, guide: seq<Entry>, minors: seq<string>)
    requires a.resource == b.resource
    ensures JudgedOne(a, guide, minors).Some? <==> JudgedOne(b, guide, minors).Some?
    ensures JudgedOne(a, guide, minors).Some? ==>
      && |JudgedOne(a, guide, minors).value| == |JudgedOne(b, guide, minors).value|
      && forall i :: SameTarget(JudgedOne(a, guide, minors).value, JudgedOne(b, guide, minors).value, i)
  {
    var entry := Lookup(guide, a.resource.kind, a.resource.apiVersion);
    if entry.Some? {
      var judge, other := Judge(entry.value, a.foundIn), Judge(entry.value, b.foundIn);
      forall minor
        ensures SameFlagging(judge, other, minor)
      {
        VerdictAlike(entry.value, minor, a.foundIn, b.foundIn);
      }
      FlaggedAlike(a, judge, b, other, minors);
    }
  }

  lemma VerdictAlike(entry: Entry, minor: string, a: string, b: string)
    ensures SameFlagging(Judge(entry, a), Judge(entry, b), minor)
  {
  }
}
