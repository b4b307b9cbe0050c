/** Which document comes first. Entries are collected file by file, and within a file in its own
    order, so only whole documents can change places. */
module DocumentOrder {
  import opened Retriever
  import opened Traces
  import opened Wrappers

  /** What an answer says, apart from repeating the question. */
  datatype Ruling = Ruling(status: Status, source: Option<string>)

  function RulingOn(norm: string -> string, entries: seq<Entry>, q: Query): Ruling {
    var a := Lookup(norm, entries, q);
    Ruling(a.status, a.source)
  }

  /** The lookup over all documents, each given by its entries. */
  function RulingOver(norm: string -> string, docs: seq<seq<Entry>>, q: Query): Ruling {
    RulingOn(norm, Join(docs), q)
  }

  /** Whether a document has an entry that applies. */
  predicate Rules(norm: string -> string, doc: seq<Entry>, q: Query) {
    RulingOn(norm, doc, q).source.Some?
  }

  /** Document `i` is the first that has an applicable entry. */
  ghost predicate FirstToRule(norm: string -> string, docs: seq<seq<Entry>>, q: Query, i: int) {
    0 <= i < |docs| && Rules(norm, docs[i], q) && forall j :: 0 <= j < i ==> !Rules(norm, docs[j], q)
  }

  // ---------------------------------------------------------------- the first document decides

  /** The ruling of a list followed by another: that of the first, if it has one. */
  lemma RulingConcat(norm: string -> string, a: seq<Entry>, b: seq<Entry>, q: Query)
    ensures RulingOn(norm, a + b, q) == if Rules(norm, a, q) then RulingOn(norm, a, q) else RulingOn(norm, b, q)
  {
    LookupIsFirstApplicable(norm, a, q);
    LookupIsFirstApplicable(norm, b, q);
    LookupIsFirstApplicable(norm, a + b, q);
    if i :| FirstApplicable(norm, a, q, i) {
      assert FirstApplicable(norm, a + b, q, i);
    } else if i :| FirstApplicable(norm, b, q, i) {
      assert FirstApplicable(norm, a + b, q, |a| + i);
    } else {
      NothingApplies(norm, a, b, q);
    }
  }

  lemma NothingApplies(norm: string -> string, a: seq<Entry>, b: seq<Entry>, q: Query)
    requires forall i :: 0 <= i < |a| ==> !Applies(norm, q, a[i])
    requires forall i :: 0 <= i < |b| ==> !Applies(norm, q, b[i])
    ensures forall i :: 0 <= i < |a + b| ==> !Applies(norm, q, (a + b)[i])
  {
  }

  lemma NoRuling(norm: string -> string, entries: seq<Entry>, q: Query)
    ensures !Rules(norm, entries, q) ==> RulingOn(norm, entries, q) == Ruling(Unknown, None)
  {
    LookupIsFirstApplicable(norm, entries, q);
  }

  /** The first of two lists that rules, rules for both. */
  ghost predicate CombinesAt(rule: seq<Entry> -> Ruling, a: seq<Entry>, b: seq<Entry>) {
    rule(a + b) == if rule(a).source.Some? then rule(a) else rule(b)
  }

  ghost predicate Combines(rule: seq<Entry> -> Ruling) {
    rule([]).source.None? && forall a, b :: CombinesAt(rule, a, b)
  }

  lemma {:induction false} JoinSilent(docs: seq<seq<Entry>>, rule: seq<Entry> -> Ruling)
    requires Combines(rule) && forall i :: 0 <= i < |docs| ==> rule(docs[i]).source.None?
    ensures rule(Join(docs)).source.None?
  {
    if docs == [] {
    } else {
      var n := |docs| - 1;
      JoinSilent(docs[..n], rule);
      assert CombinesAt(rule, Join(docs[..n]), docs[n]);
    }
  }

  lemma {:induction false} JoinFirst(docs: seq<seq<Entry>>, rule: seq<Entry> -> Ruling, i: nat)
    requires Combines(rule) && i < |docs| && rule(docs[i]).source.Some?
    requires forall j :: 0 <= j < i ==> rule(docs[j]).source.None?
    ensures rule(Join(docs)) == rule(docs[i])
    decreases |docs|
  {
    var n := |docs| - 1;
    assert CombinesAt(rule, Join(docs[..n]), docs[n]);
    if i == n {
      JoinSilent(docs[..n], rule);
    } else {
      JoinFirst(docs[..n], rule, i);
    }
  }

  function Ruler(norm: string -> string, q: Query): seq<Entry> -> Ruling {
    entries => RulingOn(norm, entries, q)
  }

  lemma RulerCombines(norm: string -> string, q: Query)
    ensures Combines(Ruler(norm, q))
  {
    forall a, b
      ensures CombinesAt(Ruler(norm, q), a, b)
    {
      RulingConcat(norm, a, b, q);
    }
    LookupIsFirstApplicable(norm, [], q);
  }

  /** Over several documents the first with an applicable entry decides, by its own ruling. */
  lemma FirstDocumentDecides(norm: string -> string, docs: seq<seq<Entry>>, q: Query, i: nat)
    requires FirstToRule(norm, docs, q, i)
    ensures RulingOver(norm, docs, q) == RulingOn(norm, docs[i], q)
  {
    RulerCombines(norm, q);
    JoinFirst(docs, Ruler(norm, q), i);
  }

  /** Without one, all of them together do not rule. */
  lemma NoDocumentDecides(norm: string -> string, docs: seq<seq<Entry>>, q: Query)
    requires forall i :: 0 <= i < |docs| ==> !Rules(norm, docs[i], q)
    ensures RulingOver(norm, docs, q) == Ruling(Unknown, None)
  {
    RulerCombines(norm, q);
    JoinSilent(docs, Ruler(norm, q));
    NoRuling(norm, Join(docs), q);
  }

  lemma {:induction false} SomeFirst(norm: string -> string, docs: seq<seq<Entry>>, q: Query, n: nat) returns (i: int)
    requires n < |docs| && Rules(norm, docs[n], q)
    ensures FirstToRule(norm, docs, q, i)
    decreases n
  {
    if j :| 0 <= j < n && Rules(norm, docs[j], q) {
      i := SomeFirst(norm, docs, q, j);
    } else {
      i := n;
    }
  }

  // ---------------------------------------------------------------- one query

  /** What `view` shows of the ruling is the same in whatever order the documents stand. */
  ghost predicate OrderFree<X>(norm: string -> string, docs: seq<seq<Entry>>, q: Query, view: Ruling -> X) {
    forall others :: multiset(others) == multiset(docs) ==>
      view(RulingOver(norm, others, q)) == view(RulingOver(norm, docs, q))
  }

  /** All documents that rule, rule alike. */
  ghost predicate Unanimous<X>(norm: string -> string, docs: seq<seq<Entry>>, q: Query, view: Ruling -> X) {
    forall d, e :: d in docs && e in docs && Rules(norm, d, q) && Rules(norm, e, q) ==>
      view(RulingOn(norm, d, q)) == view(RulingOn(norm, e, q))
  }

  lemma RulesInFront<X>(norm: string -> string, docs: seq<seq<Entry>>, q: Query, view: Ruling -> X, d: seq<Entry>)
    requires OrderFree(norm, docs, q, view) && d in docs && Rules(norm, d, q)
    ensures view(RulingOver(norm, docs, q)) == view(RulingOn(norm, d, q))
  {
    var i :| 0 <= i < |docs| && docs[i] == d;
    var others := ToFront(docs, i);
    FirstDocumentDecides(norm, others, q, 0);
  }

  /** The document that decides, or -1 if none rules. */
  lemma DecidingDocument(norm: string -> string, docs: seq<seq<Entry>>, q: Query) returns (i: int)
    ensures -1 <= i < |docs|
    ensures i >= 0 ==> Rules(norm, docs[i], q) && RulingOver(norm, docs, q) == RulingOn(norm, docs[i], q)
    ensures i < 0 ==> RulingOver(norm, docs, q) == Ruling(Unknown, None)
    ensures i < 0 ==> forall j :: 0 <= j < |docs| ==> !Rules(norm, docs[j], q)
  {
    if n: nat :| n < |docs| && Rules(norm, docs[n], q) {
      i := SomeFirst(norm, docs, q, n);
      FirstDocumentDecides(norm, docs, q, i);
    } else {
      NoDocumentDecides(norm, docs, q);
      i := -1;
    }
  }

  lemma SameRuling<X>(norm: string -> string, docs: seq<seq<Entry>>, others: seq<seq<Entry>>, q: Query, view: Ruling -> X)
    requires Unanimous(norm, docs, q, view) && multiset(others) == multiset(docs)
    ensures view(RulingOver(norm, others, q)) == view(RulingOver(norm, docs, q))
  {
    var i := DecidingDocument(norm, docs, q);
    var j := DecidingDocument(norm, others, q);
    if i >= 0 {
      var m := SameItems(docs, others, i);
      assert j >= 0;
    }
    if j >= 0 {
      var m := SameItems(others, docs, j);
      assert docs[i] in docs && docs[m] in docs;
    }
  }

  /** For one query, the order of the documents is irrelevant exactly when all documents with an
      applicable entry rule alike, each by its own first applicable entry. `view` chooses what
      has to be alike: the whole ruling, or the status only. */
  lemma OrderFreeIff<X>(norm: string -> string, docs: seq<seq<Entry>>, q: Query, view: Ruling -> X)
    ensures OrderFree(norm, docs, q, view) <==> Unanimous(norm, docs, q, view)
  {
    if OrderFree(norm, docs, q, view) {
      forall d, e | d in docs && e in docs && Rules(norm, d, q) && Rules(norm, e, q)
        ensures view(RulingOn(norm, d, q)) == view(RulingOn(norm, e, q))
      {
        RulesInFront(norm, docs, q, view, d);
        RulesInFront(norm, docs, q, view, e);
      }
    }
    if Unanimous(norm, docs, q, view) {
      forall others | multiset(others) == multiset(docs)
        ensures view(RulingOver(norm, others, q)) == view(RulingOver(norm, docs, q))
      {
        SameRuling(norm, docs, others, q, view);
      }
    }
  }

  // ---------------------------------------------------------------- every version

  function VersionText(version: Option<string>): string {
    if version.Some? then version.value else ""
  }

  /** `p` is the longest pattern of the entries that is a prefix of `v`, or empty. */
  ghost predicate LongestPattern(entries: seq<Entry>, v: string, p: string) {
    && p <= v && (p == "" || exists e :: e in entries && Prefix(e) == p)
    && forall e :: e in entries && Prefix(e) <= v ==> |Prefix(e)| <= |p|
  }

  lemma {:induction false} SomeLongest(entries: seq<Entry>, v: string) returns (p: string)
    ensures LongestPattern(entries, v, p)
  {
    if entries == [] {
      p := "";
    } else {
      var n := |entries| - 1;
      p := SomeLongest(entries[..n], v);
      if Prefix(entries[n]) <= v && |p| < |Prefix(entries[n])| {
        p := Prefix(entries[n]);
      }
    }
  }

  /** An entry applies at a version exactly when it applies at that version's longest pattern. */
  lemma AppliesAlike(norm: string -> string, entries: seq<Entry>, component: string, version: Option<string>, minor: string, p: string, e: Entry)
    requires LongestPattern(entries, VersionText(version), p) && e in entries
    ensures Applies(norm, Query(component, version, minor), e) <==> Applies(norm, Query(component, Some(p), minor), e)
  {
    var v, f := VersionText(version), Prefix(e);
    if Truthy(e.pattern) {
      PrefixOfPrefix(f, p, v);
    }
  }

  lemma PrefixOfPrefix(f: string, p: string, v: string)
    requires p <= v && (f <= v ==> |f| <= |p|)
    ensures f <= v <==> f <= p
  {
    if f <= v {
      assert f == v[..|f|] && p == v[..|p|];
    }
  }

  lemma RulesAlike(norm: string -> string, doc: seq<Entry>, q: Query, r: Query)
    requires forall i :: 0 <= i < |doc| ==> (Applies(norm, q, doc[i]) <==> Applies(norm, r, doc[i]))
    ensures RulingOn(norm, doc, q) == RulingOn(norm, doc, r)
  {
    var i := Decider(norm, doc, q);
    var j := Decider(norm, doc, r);
    LookupIsFirstApplicable(norm, doc, q);
    LookupIsFirstApplicable(norm, doc, r);
    if k :| FirstApplicable(norm, doc, q, k) {
      assert FirstApplicable(norm, doc, r, k);
    }
  }

  lemma {:induction false} EntryOfJoin(docs: seq<seq<Entry>>, d: seq<Entry>, e: Entry)
    requires d in docs && e in d
    ensures e in Join(docs)
  {
    var n := |docs| - 1;
    if d != docs[n] {
      EntryOfJoin(docs[..n], d, e);
    }
  }

  /** A version to be looked at: none, or one that is itself a pattern of the documents. */
  predicate Telling(docs: seq<seq<Entry>>, p: string) {
    p == "" || exists i :: 0 <= i < |Join(docs)| && Prefix(Join(docs)[i]) == p
  }

  /** At every version the documents rule as they do at one of the patterns that occur in them. */
  lemma VersionStandsFor(norm: string -> string, docs: seq<seq<Entry>>, component: string, version: Option<string>, minor: string)
    returns (p: string)
    ensures Telling(docs, p)
    ensures forall d :: d in docs ==>
      RulingOn(norm, d, Query(component, version, minor)) == RulingOn(norm, d, Query(component, Some(p), minor))
  {
    p := SomeLongest(Join(docs), VersionText(version));
    forall d | d in docs
      ensures RulingOn(norm, d, Query(component, version, minor)) == RulingOn(norm, d, Query(component, Some(p), minor))
    {
      forall i | 0 <= i < |d|
        ensures Applies(norm, Query(component, version, minor), d[i]) <==> Applies(norm, Query(component, Some(p), minor), d[i])
      {
        EntryOfJoin(docs, d, d[i]);
        AppliesAlike(norm, Join(docs), component, version, minor, p, d[i]);
      }
      RulesAlike(norm, d, Query(component, version, minor), Query(component, Some(p), minor));
    }
  }

  /** For a component and minor, the order of the documents is irrelevant at every version
      exactly when the documents are unanimous at the empty version and at each pattern that
      occurs in them: finitely many questions, which can be asked beforehand. */
  lemma OrderFreeAtEveryVersion<X>(norm: string -> string, docs: seq<seq<Entry>>, component: string, minor: string, view: Ruling -> X)
    ensures (forall version :: OrderFree(norm, docs, Query(component, version, minor), view)) <==>
      forall p :: Telling(docs, p) ==> Unanimous(norm, docs, Query(component, Some(p), minor), view)
  {
    if forall version :: OrderFree(norm, docs, Query(component, version, minor), view) {
      forall p | Telling(docs, p)
        ensures Unanimous(norm, docs, Query(component, Some(p), minor), view)
      {
        assert OrderFree(norm, docs, Query(component, Some(p), minor), view);
        OrderFreeIff(norm, docs, Query(component, Some(p), minor), view);
      }
    }
    if forall p :: Telling(docs, p) ==> Unanimous(norm, docs, Query(component, Some(p), minor), view) {
      forall version
        ensures OrderFree(norm, docs, Query(component, version, minor), view)
      {
        var p := VersionStandsFor(norm, docs, component, version, minor);
        UnanimousAlike(norm, docs, Query(component, version, minor), Query(component, Some(p), minor), view);
        OrderFreeIff(norm, docs, Query(component, version, minor), view);
      }
    }
  }

  lemma UnanimousAlike<X>(norm: string -> string, docs: seq<seq<Entry>>, q: Query, r: Query, view: Ruling -> X)
    requires forall d :: d in docs ==> RulingOn(norm, d, q) == RulingOn(norm, d, r)
    ensures Unanimous(norm, docs, q, view) <==> Unanimous(norm, docs, r, view)
  {
  }

  // ---------------------------------------------------------------- patterns apart

  /** No pattern of one document is a prefix of one of another, for a component and minor. */
  ghost predicate Separate(norm: string -> string, docs: seq<seq<Entry>>, component: string, minor: string) {
    forall i, j, e, f :: 0 <= i < j < |docs| && e in docs[i] && f in docs[j] ==> !Rivals(norm, component, minor, e, f)
  }

  /** Where no two positions have it, at most one value does. */
  lemma AtMostOne<T>(items: seq<T>, has: T -> bool, x: T, y: T)
    requires forall i, j :: 0 <= i < j < |items| ==> !has(items[i]) || !has(items[j])
    requires x in items && y in items && has(x) && has(y)
    ensures x == y
  {
    var i :| 0 <= i < |items| && items[i] == x;
    var j :| 0 <= j < |items| && items[j] == y;
  }

  /** Patterns that are pairwise no prefixes across documents suffice, whatever each document
      says within itself. */
  lemma SeparateIsOrderFree<X>(norm: string -> string, docs: seq<seq<Entry>>, q: Query, view: Ruling -> X)
    requires Separate(norm, docs, q.component, q.minor)
    ensures OrderFree(norm, docs, q, view)
  {
    var has := (d: seq<Entry>) => Rules(norm, d, q);
    forall i, j | 0 <= i < j < |docs|
      ensures !has(docs[i]) || !has(docs[j])
    {
      NotBoth(norm, docs, q, i, j);
    }
    forall d, e | d in docs && e in docs && has(d) && has(e)
      ensures d == e
    {
      AtMostOne(docs, has, d, e);
    }
    OrderFreeIff(norm, docs, q, view);
  }

  lemma RulingEntry(norm: string -> string, doc: seq<Entry>, q: Query) returns (e: Entry)
    requires Rules(norm, doc, q)
    ensures e in doc && Applies(norm, q, e)
  {
    var i := Decider(norm, doc, q);
    e := doc[i];
  }

  lemma NotBoth(norm: string -> string, docs: seq<seq<Entry>>, q: Query, i: nat, j: nat)
    requires Separate(norm, docs, q.component, q.minor) && i < j < |docs|
    ensures !Rules(norm, docs[i], q) || !Rules(norm, docs[j], q)
  {
    if Rules(norm, docs[i], q) && Rules(norm, docs[j], q) {
      var e := RulingEntry(norm, docs[i], q);
      var f := RulingEntry(norm, docs[j], q);
      AreRivals(norm, q, e, f);
    }
  }

  lemma AreRivals(norm: string -> string, q: Query, e: Entry, f: Entry)
    requires Applies(norm, q, e) && Applies(norm, q, f)
    ensures Rivals(norm, q.component, q.minor, e, f)
  {
    BothApplyComparable(norm, q, e, f);
  }

  /** A single document can change places with none, whatever it says. */
  lemma OneDocument<X>(norm: string -> string, doc: seq<Entry>, q: Query, view: Ruling -> X)
    ensures OrderFree(norm, [doc], q, view)
  {
    OrderFreeIff(norm, [doc], q, view);
  }

  /** Yet it can contradict itself, so that the order of its entries matters: 3.2 is compatible,
      3 in general is not without warning. */
  lemma OneDocumentDivided(norm: string -> string, component: string, minor: string, document: string)
    ensures !EntryOrderFree(norm,
                            [Entry(component, minor, Some("3.2"), Compatible, document), Entry(component, minor, Some("3"), Warning, document)],
                            Query(component, Some("3.2"), minor))
  {
    var first, second := Entry(component, minor, Some("3.2"), Compatible, document), Entry(component, minor, Some("3"), Warning, document);
    var q := Query(component, Some("3.2"), minor);
    EntryOrderFreeIff(norm, [first, second], q);
    assert Applies(norm, q, first) && Applies(norm, q, second);
    assert [first, second][0] == first && [first, second][1] == second;
  }
}
