/** What `evaluate_deprecated_apis` reports, said of its result and of the versions in the guide:
    how often each finding of an observation occurs, and when the evaluation raises. */
module GuideVerdicts {
  import opened DeprecatedApi
  import opened Lists
  import opened Traces
  import opened Versions
  import opened Wrappers

  /** A (major, minor) pair at or past the version; a missing or empty version is never reached. */
  ghost predicate AtOrPast(major: int, minor: int, since: Option<string>) {
    && since.Some? && since.value != "" && MinorTuple(since.value).Some?
    && var (m, n) := MinorTuple(since.value).value;
       m < major || (m == major && n <= minor)
  }

  /** The finding of the guide about an observation, at a minor of the path. */
  function FindingOf(obs: Observed, status: Status, minor: string): Finding {
    Finding(obs.resource, minor, status, Rag, obs.foundIn)
  }

  lemma {:induction false} JudgedCount(obs: Observed, judge: string -> Option<Status>, minors: seq<string>, s: Status, minor: string)
    requires Judged(obs, judge, minors).Some?
    ensures multiset(Judged(obs, judge, minors).value)[FindingOf(obs, s, minor)] ==
      if judge(minor) == Some(s) && s != OK then multiset(minors)[minor] else 0
  {
    if minors == [] {
    } else {
      var n := |minors| - 1;
      JudgedCount(obs, judge, minors[..n], s, minor);
      assert minors == minors[..n] + [minors[n]];
    }
  }

  lemma {:induction false} JudgedAbout(obs: Observed, judge: string -> Option<Status>, minors: seq<string>)
    requires Judged(obs, judge, minors).Some?
    ensures forall f :: f in Judged(obs, judge, minors).value ==> f.resource == obs.resource && f.foundIn == obs.foundIn
  {
    if minors == [] {
    } else {
      JudgedAbout(obs, judge, minors[..|minors|-1]);
    }
  }

  lemma JudgedOneAbout(obs: Observed, guide: seq<Entry>, minors: seq<string>)
    requires JudgedOne(obs, guide, minors).Some?
    ensures forall f :: f in JudgedOne(obs, guide, minors).value ==> f.resource == obs.resource && f.foundIn == obs.foundIn
  {
    var entry := Lookup(guide, obs.resource.kind, obs.resource.apiVersion);
    if obs.resource.apiVersion != "" && entry.Some? {
      JudgedAbout(obs, Judge(entry.value, obs.foundIn), minors);
    }
  }

  lemma OthersElsewhere(other: Observed, guide: seq<Entry>, minors: seq<string>, obs: Observed, s: Status, minor: string)
    requires JudgedOne(other, guide, minors).Some? && other != obs
    ensures multiset(JudgedOne(other, guide, minors).value)[FindingOf(obs, s, minor)] == 0
  {
    JudgedOneAbout(other, guide, minors);
    assert FindingOf(obs, s, minor) !in JudgedOne(other, guide, minors).value;
  }

  /** Each copy of an observation contributes what one does; other observations contribute none
      of its findings. */
  lemma JudgedAllCount(observed: seq<Observed>, guide: seq<Entry>, minors: seq<string>, obs: Observed, own: seq<Finding>,
                       s: Status, minor: string)
    requires JudgedAll(observed, guide, minors).Some? && JudgedOne(obs, guide, minors) == Some(own)
    ensures multiset(JudgedAll(observed, guide, minors).value)[FindingOf(obs, s, minor)] ==
      multiset(observed)[obs] * multiset(own)[FindingOf(obs, s, minor)]
  {
    var f := FindingOf(obs, s, minor);
    var blocks := JudgedBlocks(observed, guide, minors);
    forall i | 0 <= i < |observed|
      ensures multiset(blocks[i])[f] == if observed[i] == obs then multiset(own)[f] else 0
    {
      if observed[i] != obs {
        OthersElsewhere(observed[i], guide, minors, obs, s, minor);
      }
    }
    CopiesAdd(observed, blocks, obs, f, multiset(own)[f]);
  }

  lemma {:induction false} JudgedBlocks(observed: seq<Observed>, guide: seq<Entry>, minors: seq<string>) returns (blocks: seq<seq<Finding>>)
    requires JudgedAll(observed, guide, minors).Some?
    ensures |blocks| == |observed| && JudgedAll(observed, guide, minors).value == Join(blocks)
    ensures forall i :: 0 <= i < |observed| ==> JudgedOne(observed[i], guide, minors) == Some(blocks[i])
    decreases |observed|
  {
    if observed == [] {
      blocks := [];
    } else {
      var n := |observed| - 1;
      var front := JudgedBlocks(observed[..n], guide, minors);
      blocks := front + [JudgedOne(observed[n], guide, minors).value];
      assert blocks[..|blocks|-1] == front;
    }
  }

  /** Blocks that hold `each` copies of `f` where the list holds `x`, and none elsewhere. */
  lemma {:induction false} CopiesAdd<T, U>(items: seq<T>, blocks: seq<seq<U>>, x: T, f: U, each: nat)
    requires |blocks| == |items|
    requires forall i :: 0 <= i < |items| ==> multiset(blocks[i])[f] == if items[i] == x then each else 0
    ensures multiset(Join(blocks))[f] == multiset(items)[x] * each
    decreases |items|
  {
    if |items| == 0 {
    } else {
      var n := |items| - 1;
      CopiesAdd(items[..n], blocks[..n], x, f, each);
      LastCopies(items, x);
      OneMore(multiset(items[..n])[x], each);
    }
  }

  lemma LastCopies<T>(items: seq<T>, x: T)
    requires |items| > 0
    ensures multiset(items)[x] == multiset(items[..|items|-1])[x] + if items[|items|-1] == x then 1 else 0
  {
    assert items == items[..|items|-1] + [items[|items|-1]];
  }

  /** Only readable versions have been judged. */
  lemma {:induction false} JudgedMinor(obs: Observed, judge: string -> Option<Status>, minors: seq<string>, minor: string)
    requires Judged(obs, judge, minors).Some? && minor in minors
    ensures judge(minor).Some?
  {
    var n := |minors| - 1;
    if minor != minors[n] {
      JudgedMinor(obs, judge, minors[..n], minor);
    }
  }

  lemma EntryCount(observed: seq<Observed>, guide: seq<Entry>, minors: seq<string>, findings: seq<Finding>,
                   obs: Observed, judge: string -> Option<Status>, s: Status, minor: string)
    requires JudgedAll(observed, guide, minors) == Some(findings) && obs in observed
    requires JudgedOne(obs, guide, minors) == Judged(obs, judge, minors)
    ensures multiset(findings)[FindingOf(obs, s, minor)] ==
      multiset(observed)[obs] * if judge(minor) == Some(s) && s != OK then multiset(minors)[minor] else 0
    ensures minor in minors ==> judge(minor).Some?
  {
    var blocks := JudgedBlocks(observed, guide, minors);
    var at :| 0 <= at < |observed| && observed[at] == obs;
    JudgedCount(obs, judge, minors, s, minor);
    JudgedAllCount(observed, guide, minors, obs, blocks[at], s, minor);
    if minor in minors {
      JudgedMinor(obs, judge, minors, minor);
    }
  }

  lemma VerdictMeans(entry: Entry, minor: string, foundIn: string, major: int, number: int)
    requires MinorTuple(minor) == Some((major, number)) && Verdict(entry, minor, foundIn).Some?
    ensures var gone, stale := AtOrPast(major, number, entry.removedIn), AtOrPast(major, number, entry.deprecatedIn);
      var verdict := Verdict(entry, minor, foundIn).value;
      && (verdict == UpgradeBlocker <==> gone && !("helm" <= foundIn))
      && (verdict == ActionRequired <==> (gone && "helm" <= foundIn) || (stale && !gone))
      && verdict != Unknown
  {
  }

  /** For an observation with a guide entry: how often each of its findings occurs in the result.
      A blocker is reported exactly at the minors at or past the removal, unless it was found in a
      chart; an action is required exactly at the minors at or past the deprecation and before the
      removal, and, in a chart, also from the removal on. Nothing else is reported, so nothing at
      all at a minor that reaches neither version. */
  lemma EntryDecides(observed: seq<Observed>, guide: seq<Entry>, path: seq<string>, minors: seq<string>, findings: seq<Finding>,
                     obs: Observed, i: int, minor: string, major: int, number: int, gone: bool, stale: bool, copies: nat)
    requires obs in observed && obs.resource.apiVersion != "" && FirstEntry(guide, obs.resource.kind, obs.resource.apiVersion, i)
    requires gone == AtOrPast(major, number, guide[i].removedIn) && stale == AtOrPast(major, number, guide[i].deprecatedIn)
    requires copies == multiset(observed)[obs] * multiset(minors)[minor] && MinorTuple(minor) == Some((major, number))
    requires TargetMinors(path) == Some(minors) && Evaluate(observed, guide, path) == Some(findings)
    ensures multiset(findings)[FindingOf(obs, UpgradeBlocker, minor)] == if gone && !("helm" <= obs.foundIn) then copies else 0
    ensures multiset(findings)[FindingOf(obs, ActionRequired, minor)] ==
      if (gone && "helm" <= obs.foundIn) || (stale && !gone) then copies else 0
    ensures multiset(findings)[FindingOf(obs, Unknown, minor)] == 0 == multiset(findings)[FindingOf(obs, OK, minor)]
  {
    var judge := Judge(guide[i], obs.foundIn);
    LookupIsFirst(guide, obs.resource.kind, obs.resource.apiVersion, i);
    EntryCounts(observed, guide, minors, findings, obs, judge, minor);
    if minor in minors {
      VerdictMeans(guide[i], minor, obs.foundIn, major, number);
    }
  }

  lemma EntryCounts(observed: seq<Observed>, guide: seq<Entry>, minors: seq<string>, findings: seq<Finding>,
                    obs: Observed, judge: string -> Option<Status>, minor: string)
    requires JudgedAll(observed, guide, minors) == Some(findings) && obs in observed
    requires JudgedOne(obs, guide, minors) == Judged(obs, judge, minors)
    ensures minor in minors ==> judge(minor).Some?
    ensures forall s ::
      multiset(findings)[FindingOf(obs, s, minor)] ==
        (if judge(minor) == Some(s) && s != OK then multiset(observed)[obs] * multiset(minors)[minor] else 0)
  {
    EntryCount(observed, guide, minors, findings, obs, judge, OK, minor);
    forall s
      ensures multiset(findings)[FindingOf(obs, s, minor)] ==
        (if judge(minor) == Some(s) && s != OK then multiset(observed)[obs] * multiset(minors)[minor] else 0)
    {
      EntryCount(observed, guide, minors, findings, obs, judge, s, minor);
    }
  }

  // ---------------------------------------------------------------- without an entry

  /** Without a guide entry a prerelease API is reported as UNKNOWN, once per copy and only at the
      first minor; anything else is not reported at all, nor is a manifest without an API version. */
  lemma WithoutEntry(observed: seq<Observed>, guide: seq<Entry>, path: seq<string>, minors: seq<string>, findings: seq<Finding>,
                     obs: Observed, s: Status, minor: string)
    requires obs in observed
    requires obs.resource.apiVersion == "" || forall j :: 0 <= j < |guide| ==> !IsAbout(guide[j], obs.resource.kind, obs.resource.apiVersion)
    requires TargetMinors(path) == Some(minors) && Evaluate(observed, guide, path) == Some(findings)
    ensures multiset(findings)[FindingOf(obs, s, minor)] ==
      if IsPrerelease(obs.resource.apiVersion) && minors != [] && minor == minors[0] && s == Unknown then multiset(observed)[obs] else 0
  {
    JudgedToo(observed, guide, minors, obs);
    JudgedAllCount(observed, guide, minors, obs, JudgedOne(obs, guide, minors).value, s, minor);
    UnknownOnce(obs, guide, minors, s, minor);
  }

  lemma JudgedToo(observed: seq<Observed>, guide: seq<Entry>, minors: seq<string>, obs: Observed)
    requires obs in observed && JudgedAll(observed, guide, minors).Some?
    ensures JudgedOne(obs, guide, minors).Some?
  {
    var blocks := JudgedBlocks(observed, guide, minors);
    var at :| 0 <= at < |observed| && observed[at] == obs;
  }

  lemma UnknownOnce(obs: Observed, guide: seq<Entry>, minors: seq<string>, s: Status, minor: string)
    requires obs.resource.apiVersion == "" || forall j :: 0 <= j < |guide| ==> !IsAbout(guide[j], obs.resource.kind, obs.resource.apiVersion)
    requires JudgedOne(obs, guide, minors).Some?
    ensures multiset(JudgedOne(obs, guide, minors).value)[FindingOf(obs, s, minor)] ==
      if IsPrerelease(obs.resource.apiVersion) && minors != [] && minor == minors[0] && s == Unknown then 1 else 0
  {
    if obs.resource.apiVersion == "" {
      EmptyIsNoPrerelease();
    } else {
      LookupIsFirst(guide, obs.resource.kind, obs.resource.apiVersion, 0);
    }
  }

  lemma EmptyIsNoPrerelease()
    ensures !IsPrerelease("")
  {
    assert forall i: nat :: !LowerAt("", "beta", i) && !LowerAt("", "alpha", i);
  }

  /** A letter in either case. */
  predicate Letter(c: char, lower: char, upper: char) {
    c == lower || c == upper
  }

  /** `beta` or `alpha` stands in the text, in whatever case. */
  ghost predicate SaysBeta(s: string, i: int) {
    0 <= i && i + 4 <= |s|
    && Letter(s[i], 'b', 'B') && Letter(s[i + 1], 'e', 'E') && Letter(s[i + 2], 't', 'T') && Letter(s[i + 3], 'a', 'A')
  }

  ghost predicate SaysAlpha(s: string, i: int) {
    0 <= i && i + 5 <= |s|
    && Letter(s[i], 'a', 'A') && Letter(s[i + 1], 'l', 'L') && Letter(s[i + 2], 'p', 'P') && Letter(s[i + 3], 'h', 'H')
    && Letter(s[i + 4], 'a', 'A')
  }

  lemma PrereleaseIff(apiVersion: string)
    ensures IsPrerelease(apiVersion) <==> exists i :: SaysBeta(apiVersion, i) || SaysAlpha(apiVersion, i)
  {
    forall i: nat
      ensures LowerAt(apiVersion, "beta", i) <==> SaysBeta(apiVersion, i)
      ensures LowerAt(apiVersion, "alpha", i) <==> SaysAlpha(apiVersion, i)
    {
      BetaAt(apiVersion, i);
      AlphaAt(apiVersion, i);
    }
    if i :| SaysBeta(apiVersion, i) || SaysAlpha(apiVersion, i) {
      assert LowerAt(apiVersion, "beta", i) || LowerAt(apiVersion, "alpha", i);
    }
  }

  lemma BetaAt(s: string, i: nat)
    ensures LowerAt(s, "beta", i) <==> SaysBeta(s, i)
  {
    if i + 4 <= |s| {
      assert LowerAt(s, "beta", i) <==>
        Lower(s[i + 0]) == "beta"[0] && Lower(s[i + 1]) == "beta"[1] && Lower(s[i + 2]) == "beta"[2] && Lower(s[i + 3]) == "beta"[3];
    }
  }

  lemma AlphaAt(s: string, i: nat)
    ensures LowerAt(s, "alpha", i) <==> SaysAlpha(s, i)
  {
    if i + 5 <= |s| {
      assert LowerAt(s, "alpha", i) <==>
        Lower(s[i + 0]) == "alpha"[0] && Lower(s[i + 1]) == "alpha"[1] && Lower(s[i + 2]) == "alpha"[2] && Lower(s[i + 3]) == "alpha"[3]
        && Lower(s[i + 4]) == "alpha"[4];
    }
  }

  /** Nothing is reported but what was observed, at a minor of the path. */
  lemma NothingElse(observed: seq<Observed>, guide: seq<Entry>, path: seq<string>, findings: seq<Finding>, f: Finding)
    requires Evaluate(observed, guide, path) == Some(findings) && f in findings
    ensures TargetMinors(path).Some? && f.target in TargetMinors(path).value
    ensures exists obs :: obs in observed && f == FindingOf(obs, f.status, f.target)
  {
    var minors := TargetMinors(path).value;
    var blocks := JudgedBlocks(observed, guide, minors);
    var i := InSomeBlock(blocks, f);
    JudgedOneOf(observed[i], guide, minors, f);
  }

  lemma {:induction false} InSomeBlock<T>(blocks: seq<seq<T>>, x: T) returns (i: nat)
    requires x in Join(blocks)
    ensures i < |blocks| && x in blocks[i]
    decreases |blocks|
  {
    if x in blocks[|blocks|-1] {
      i := |blocks| - 1;
    } else {
      i := InSomeBlock(blocks[..|blocks|-1], x);
    }
  }

  lemma JudgedOneOf(obs: Observed, guide: seq<Entry>, minors: seq<string>, f: Finding)
    requires JudgedOne(obs, guide, minors).Some? && f in JudgedOne(obs, guide, minors).value
    ensures f.target in minors && f == FindingOf(obs, f.status, f.target)
  {
    var entry := Lookup(guide, obs.resource.kind, obs.resource.apiVersion);
    if entry.Some? {
      JudgedOf(obs, Judge(entry.value, obs.foundIn), minors, f);
    }
  }

  lemma {:induction false} JudgedOf(obs: Observed, judge: string -> Option<Status>, minors: seq<string>, f: Finding)
    requires Judged(obs, judge, minors).Some? && f in Judged(obs, judge, minors).value
    ensures f.target in minors && f == FindingOf(obs, f.status, f.target)
  {
    var n := |minors| - 1;
    if f in Judged(obs, judge, minors[..n]).value {
      JudgedOf(obs, judge, minors[..n], f);
    }
  }

  // ---------------------------------------------------------------- unreadable versions

  ghost predicate Garbled(version: Option<string>) {
    version.Some? && version.value != "" && MinorTuple(version.value).None?
  }

  /** The entry of the observation has a version that cannot be read, and it is looked at: that
      of the removal always, that of the deprecation only before the removal. */
  ghost predicate Trips(obs: Observed, guide: seq<Entry>, i: int, major: int, number: int) {
    && obs.resource.apiVersion != "" && FirstEntry(guide, obs.resource.kind, obs.resource.apiVersion, i)
    && TripsOver(guide[i], major, number)
  }

  ghost predicate TripsOver(entry: Entry, major: int, number: int) {
    Garbled(entry.removedIn) || (!AtOrPast(major, number, entry.removedIn) && Garbled(entry.deprecatedIn))
  }

  /** The first entry about the observation does. */
  ghost predicate Stuck(obs: Observed, guide: seq<Entry>, major: int, number: int) {
    exists i :: Trips(obs, guide, i, major, number)
  }

  /** Over the ascending minors of a path the evaluation raises exactly when, at the first of
      them, some observation's entry has an unreadable version that is looked at. */
  lemma RaisesIff(observed: seq<Observed>, guide: seq<Entry>, path: seq<string>, minors: seq<string>, major: int, number: int)
    requires minors != [] && Ascending(minors) && MinorTuple(minors[0]) == Some((major, number))
    requires TargetMinors(path) == Some(minors)
    ensures Evaluate(observed, guide, path).None? <==> exists obs :: obs in observed && Stuck(obs, guide, major, number)
  {
    if JudgedAll(observed, guide, minors).None? {
      var o := RaisesSomewhere(observed, guide, minors);
      OneRaises(observed[o], guide, minors, major, number);
    }
    if obs :| obs in observed && Stuck(obs, guide, major, number) {
      OneRaises(obs, guide, minors, major, number);
      OneIsEnough(observed, guide, minors, obs);
    }
  }

  lemma OneIsEnough(observed: seq<Observed>, guide: seq<Entry>, minors: seq<string>, obs: Observed)
    requires obs in observed && JudgedOne(obs, guide, minors).None?
    ensures JudgedAll(observed, guide, minors).None?
  {
    var o :| 0 <= o < |observed| && observed[o] == obs;
    assert observed[..o + 1][..o] == observed[..o];
    JudgedAllStuck(observed, guide, minors, o + 1);
  }

  lemma {:induction false} RaisesSomewhere(observed: seq<Observed>, guide: seq<Entry>, minors: seq<string>) returns (o: nat)
    requires JudgedAll(observed, guide, minors).None?
    ensures o < |observed| && JudgedOne(observed[o], guide, minors).None?
    decreases |observed|
  {
    o := |observed| - 1;
    if JudgedOne(observed[o], guide, minors).Some? {
      o := RaisesSomewhere(observed[..o], guide, minors);
    }
  }

  lemma OneRaises(obs: Observed, guide: seq<Entry>, minors: seq<string>, major: int, number: int)
    requires minors != [] && Ascending(minors) && MinorTuple(minors[0]) == Some((major, number))
    ensures JudgedOne(obs, guide, minors).None? <==> Stuck(obs, guide, major, number)
  {
    var kind, apiVersion := obs.resource.kind, obs.resource.apiVersion;
    if Lookup(guide, kind, apiVersion).Some? {
      var i := FoundAt(guide, kind, apiVersion);
      OnlyFirst(guide, kind, apiVersion, i);
      EntryRaises(guide[i], obs, minors, major, number);
      assert Trips(obs, guide, i, major, number) <==> obs.resource.apiVersion != "" && TripsOver(guide[i], major, number);
    } else {
      LookupIsFirst(guide, kind, apiVersion, 0);
    }
  }

  lemma EntryRaises(entry: Entry, obs: Observed, minors: seq<string>, major: int, number: int)
    requires minors != [] && Ascending(minors) && MinorTuple(minors[0]) == Some((major, number))
    ensures Judged(obs, Judge(entry, obs.foundIn), minors).None? <==> TripsOver(entry, major, number)
  {
    PathWorsens(entry, obs.foundIn, minors);
    JudgedRaises(obs, Judge(entry, obs.foundIn), minors);
    JudgeTrips(entry, minors[0], obs.foundIn, major, number);
  }

  lemma JudgeTrips(entry: Entry, minor: string, foundIn: string, major: int, number: int)
    requires MinorTuple(minor) == Some((major, number))
    ensures Judge(entry, foundIn)(minor).None? <==> TripsOver(entry, major, number)
  {
  }

  lemma {:induction false} FoundAt(guide: seq<Entry>, kind: string, apiVersion: string) returns (i: nat)
    requires Lookup(guide, kind, apiVersion).Some?
    ensures FirstEntry(guide, kind, apiVersion, i) && Lookup(guide, kind, apiVersion) == Some(guide[i])
  {
    if IsAbout(guide[0], kind, apiVersion) {
      i := 0;
    } else {
      i := FoundAt(guide[1..], kind, apiVersion);
      i := i + 1;
      assert forall j :: 0 < j < |guide| ==> guide[j] == guide[1..][j - 1];
    }
  }

  lemma OnlyFirst(guide: seq<Entry>, kind: string, apiVersion: string, i: nat)
    requires FirstEntry(guide, kind, apiVersion, i)
    ensures forall j :: FirstEntry(guide, kind, apiVersion, j) ==> j == i
  {
  }

  lemma {:induction false} JudgedRaises(obs: Observed, judge: string -> Option<Status>, minors: seq<string>)
    requires minors != [] && Worsens(judge, minors)
    ensures Judged(obs, judge, minors).None? <==> judge(minors[0]).None?
  {
    var n := |minors| - 1;
    if n == 0 {
      assert Judged(obs, judge, minors[..0]) == Some([]);
    } else {
      forall i, j
        ensures WorsensAt(judge, minors[..n], i, j)
      {
        assert WorsensAt(judge, minors, i, j);
      }
      JudgedRaises(obs, judge, minors[..n]);
      assert WorsensAt(judge, minors, 0, n);
    }
  }
}
