/** `lookup_compatibility`: the structured lookup every compatibility verdict comes from. */
module Retriever {
  import opened Lists
  import opened Wrappers

  datatype Status = Compatible | Unknown | Warning | Incompatible

  /** An entry of a compatibility matrix; a missing or empty pattern applies to every version. */
  datatype Entry = Entry(component: string, minor: string, pattern: Option<string>, status: Status, document: string)

  /** `source` is the cited document, if any. */
  datatype Answer = Answer(component: string, version: Option<string>, minor: string, status: Status, source: Option<string>)

  predicate Truthy(o: Option<string>) {
    o.Some? && o.value != ""
  }

  /** What is asked for: component (compared after `norm`, the source's lower-casing), its
      version, and the minor of the path. */
  datatype Query = Query(component: string, version: Option<string>, minor: string)

  predicate Candidate(norm: string -> string, q: Query, e: Entry) {
    norm(e.component) == norm(q.component) && e.minor == q.minor
  }

  predicate PatternMatches(q: Query, e: Entry) {
    if !Truthy(e.pattern) then true
    else if !Truthy(q.version) then false
    else e.pattern.value <= q.version.value
  }

  function AnswerFrom(q: Query, matches: seq<Entry>): Answer {
    if matches == [] then Answer(q.component, q.version, q.minor, Unknown, None)
    else Answer(q.component, q.version, q.minor, matches[0].status, Some(matches[0].document))
  }

  /** `lookup_compatibility`, with its two branches. */
  function Lookup(norm: string -> string, entries: seq<Entry>, q: Query): Answer {
    var candidates := Filter(entries, e => Candidate(norm, q, e));
    var scoped := Filter(candidates, (e: Entry) => Truthy(e.pattern));
    AnswerFrom(q, if scoped != [] then Filter(candidates, e => PatternMatches(q, e)) else candidates)
  }

  // ---------------------------------------------------------------- first applicable entry

  predicate Applies(norm: string -> string, q: Query, e: Entry) {
    Candidate(norm, q, e) && PatternMatches(q, e)
  }

  /** When an entry applies: to that component whatever its case, at exactly that minor, and to
      every version, or to those that begin with its pattern. */
  lemma AppliesIff(norm: string -> string, q: Query, e: Entry)
    ensures Applies(norm, q, e) <==>
      && norm(e.component) == norm(q.component) && e.minor == q.minor
      && (e.pattern.None? || e.pattern.value == "" ||
            (q.version.Some? && q.version.value != "" && exists rest :: q.version.value == e.pattern.value + rest))
  {
    if q.version.Some? && e.pattern.Some? && e.pattern.value <= q.version.value {
      assert q.version.value == e.pattern.value + q.version.value[|e.pattern.value|..];
    }
  }

  ghost predicate FirstApplicable(norm: string -> string, entries: seq<Entry>, q: Query, i: int) {
    && 0 <= i < |entries| && Applies(norm, q, entries[i])
    && forall j :: 0 <= j < i ==> !Applies(norm, q, entries[j])
  }

  lemma BranchesAgree(norm: string -> string, entries: seq<Entry>, q: Query)
    ensures Lookup(norm, entries, q) == AnswerFrom(q, Filter(entries, e => Applies(norm, q, e)))
  {
    var candidate := (e: Entry) => Candidate(norm, q, e);
    var matching := (e: Entry) => PatternMatches(q, e);
    var candidates := Filter(entries, candidate);
    FilterTwice(entries, candidate, matching, e => Applies(norm, q, e));
    if Filter(candidates, (e: Entry) => Truthy(e.pattern)) == [] {
      FilterAll(candidates, matching);
    }
  }

  /** The two branches amount to one rule: the first entry of that component and minor whose
      pattern is absent or a prefix of the version decides; without such an entry, and only
      then, the answer is UNKNOWN without a source. */
  lemma LookupIsFirstApplicable(norm: string -> string, entries: seq<Entry>, q: Query)
    ensures forall i :: FirstApplicable(norm, entries, q, i) ==>
      Lookup(norm, entries, q) == Answer(q.component, q.version, q.minor, entries[i].status, Some(entries[i].document))
    ensures (exists i :: FirstApplicable(norm, entries, q, i)) <==> Lookup(norm, entries, q).source.Some?
    ensures Lookup(norm, entries, q).source.None? ==> Lookup(norm, entries, q).status == Unknown
    ensures Lookup(norm, entries, q).source.None? <==> forall i :: 0 <= i < |entries| ==> !Applies(norm, q, entries[i])
  {
    var applies := (e: Entry) => Applies(norm, q, e);
    BranchesAgree(norm, entries, q);
    forall i | FirstApplicable(norm, entries, q, i)
      ensures Lookup(norm, entries, q) == Answer(q.component, q.version, q.minor, entries[i].status, Some(entries[i].document))
    {
      FilterFirst(entries, applies, i);
    }
    if n: nat :| n < |entries| && Applies(norm, q, entries[n]) {
      var i := FirstOne(norm, entries, q, n);
    }
  }

  lemma {:induction false} FirstOne(norm: string -> string, entries: seq<Entry>, q: Query, n: nat) returns (i: int)
    requires n < |entries| && Applies(norm, q, entries[n])
    ensures FirstApplicable(norm, entries, q, i)
    decreases n
  {
    if j :| 0 <= j < n && Applies(norm, q, entries[j]) {
      i := FirstOne(norm, entries, q, j);
    } else {
      i := n;
    }
  }

  // ---------------------------------------------------------------- order of the entries

  /** The answer is the same in whatever order the single entries stand. (Documents keep the
      order of their own entries; see DocumentOrder.) */
  ghost predicate EntryOrderFree(norm: string -> string, entries: seq<Entry>, q: Query) {
    forall others :: multiset(others) == multiset(entries) ==> Lookup(norm, others, q) == Lookup(norm, entries, q)
  }

  /** The two entries give the same answer. */
  predicate Agree(e: Entry, f: Entry) {
    e.status == f.status && e.document == f.document
  }

  /** For one query, the order of the entries is irrelevant exactly when all those that apply to
      it agree. */
  lemma EntryOrderFreeIff(norm: string -> string, entries: seq<Entry>, q: Query)
    ensures EntryOrderFree(norm, entries, q) <==>
      forall e, f :: e in entries && f in entries && Applies(norm, q, e) && Applies(norm, q, f) ==> Agree(e, f)
  {
    if EntryOrderFree(norm, entries, q) {
      forall e, f | e in entries && f in entries && Applies(norm, q, e) && Applies(norm, q, f)
        ensures Agree(e, f)
      {
        MovedToFront(norm, entries, q, e);
        MovedToFront(norm, entries, q, f);
      }
    }
    if forall e, f :: e in entries && f in entries && Applies(norm, q, e) && Applies(norm, q, f) ==> Agree(e, f) {
      forall others | multiset(others) == multiset(entries)
        ensures Lookup(norm, others, q) == Lookup(norm, entries, q)
      {
        SameAnswer(norm, entries, others, q);
      }
    }
  }

  lemma ToFront<T>(items: seq<T>, i: nat) returns (others: seq<T>)
    requires i < |items|
    ensures multiset(others) == multiset(items) && |others| > 0 && others[0] == items[i]
  {
    others := [items[i]] + (items[..i] + items[i+1..]);
    assert items == items[..i] + [items[i]] + items[i+1..];
  }

  lemma SameItems<T>(a: seq<T>, b: seq<T>, i: nat) returns (j: nat)
    requires multiset(a) == multiset(b) && i < |a|
    ensures j < |b| && b[j] == a[i]
  {
    assert a[i] in multiset(b);
    j :| 0 <= j < |b| && b[j] == a[i];
  }

  /** An applicable entry decides once it stands first. */
  lemma MovedToFront(norm: string -> string, entries: seq<Entry>, q: Query, e: Entry)
    requires EntryOrderFree(norm, entries, q) && e in entries && Applies(norm, q, e)
    ensures Lookup(norm, entries, q).status == e.status && Lookup(norm, entries, q).source == Some(e.document)
  {
    var i :| 0 <= i < |entries| && entries[i] == e;
    var others := ToFront(entries, i);
    FirstDecides(norm, others, q);
  }

  lemma FirstDecides(norm: string -> string, entries: seq<Entry>, q: Query)
    requires entries != [] && Applies(norm, q, entries[0])
    ensures Lookup(norm, entries, q).status == entries[0].status && Lookup(norm, entries, q).source == Some(entries[0].document)
  {
    assert FirstApplicable(norm, entries, q, 0);
    LookupIsFirstApplicable(norm, entries, q);
  }

  /** The entry that decides, or -1 if none applies. */
  lemma Decider(norm: string -> string, entries: seq<Entry>, q: Query) returns (i: int)
    ensures -1 <= i < |entries|
    ensures i >= 0 ==> Applies(norm, q, entries[i])
    ensures i >= 0 ==>
      Lookup(norm, entries, q) == Answer(q.component, q.version, q.minor, entries[i].status, Some(entries[i].document))
    ensures i < 0 ==> Lookup(norm, entries, q) == Answer(q.component, q.version, q.minor, Unknown, None)
    ensures i < 0 ==> forall j :: 0 <= j < |entries| ==> !Applies(norm, q, entries[j])
  {
    LookupIsFirstApplicable(norm, entries, q);
    if j :| FirstApplicable(norm, entries, q, j) {
      i := j;
    } else {
      i := -1;
    }
  }

  lemma SameAnswer(norm: string -> string, entries: seq<Entry>, others: seq<Entry>, q: Query)
    requires multiset(others) == multiset(entries)
    requires forall e, f :: e in entries && f in entries && Applies(norm, q, e) && Applies(norm, q, f) ==> Agree(e, f)
    ensures Lookup(norm, others, q) == Lookup(norm, entries, q)
  {
    var i := Decider(norm, entries, q);
    var j := Decider(norm, others, q);
    if i >= 0 {
      var m := SameItems(entries, others, i);
      assert j >= 0;
    }
    if j >= 0 {
      var m := SameItems(others, entries, j);
      SameVerdict(q, entries[i], entries[m]);
    }
  }

  lemma SameVerdict(q: Query, e: Entry, f: Entry)
    requires Agree(e, f)
    ensures Answer(q.component, q.version, q.minor, e.status, Some(e.document)) ==
      Answer(q.component, q.version, q.minor, f.status, Some(f.document))
  {
  }

  function Prefix(e: Entry): string {
    if e.pattern.Some? then e.pattern.value else ""
  }

  predicate Comparable(e: Entry, f: Entry) {
    Prefix(e) <= Prefix(f) || Prefix(f) <= Prefix(e)
  }

  /** Two entries for the component and minor that one version can match both of. */
  predicate Rivals(norm: string -> string, component: string, minor: string, e: Entry, f: Entry) {
    var q := Query(component, None, minor);
    Candidate(norm, q, e) && Candidate(norm, q, f) && Comparable(e, f)
  }

  /** For a component and minor, the order of the entries is irrelevant at every version
      exactly when the entries whose patterns are comparable (one a prefix of the other) agree;
      so patterns that are pairwise not prefixes of each other always suffice. */
  lemma EntryOrderFreeAtEveryVersion(norm: string -> string, entries: seq<Entry>, component: string, minor: string)
    ensures (forall version :: EntryOrderFree(norm, entries, Query(component, version, minor))) <==>
      forall e, f :: e in entries && f in entries && Rivals(norm, component, minor, e, f) ==> Agree(e, f)
  {
    if forall version :: EntryOrderFree(norm, entries, Query(component, version, minor)) {
      forall e, f | e in entries && f in entries && Rivals(norm, component, minor, e, f)
        ensures Agree(e, f)
      {
        var version := Some(if Prefix(e) <= Prefix(f) then Prefix(f) else Prefix(e));
        var q := Query(component, version, minor);
        assert EntryOrderFree(norm, entries, q);
        EntryOrderFreeIff(norm, entries, q);
        assert Applies(norm, q, e) && Applies(norm, q, f);
      }
    }
    if forall e, f :: e in entries && f in entries && Rivals(norm, component, minor, e, f) ==> Agree(e, f) {
      forall version
        ensures EntryOrderFree(norm, entries, Query(component, version, minor))
      {
        var q := Query(component, version, minor);
        EntryOrderFreeIff(norm, entries, q);
        forall e, f | e in entries && f in entries && Applies(norm, q, e) && Applies(norm, q, f)
          ensures Agree(e, f)
        {
          BothApplyComparable(norm, q, e, f);
          assert Rivals(norm, component, minor, e, f);
        }
      }
    }
  }

  lemma BothApplyComparable(norm: string -> string, q: Query, e: Entry, f: Entry)
    requires Applies(norm, q, e) && Applies(norm, q, f)
    ensures Comparable(e, f)
  {
    if Truthy(e.pattern) && Truthy(f.pattern) {
      var v := q.version.value;
      assert Prefix(e) == v[..|Prefix(e)|] && Prefix(f) == v[..|Prefix(f)|];
    }
  }
}
