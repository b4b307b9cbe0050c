/** The software inventory: image references, the name inferred from them, and one row per
    software and namespace; and the deduplication of manifests before they are judged. */
module Addon {
  import Api = DeprecatedApi
  import opened Lists
  import opened Ranking
  import opened Text
  import opened Wrappers

  // ---------------------------------------------------------------- image references

  /** Position of the last `c`, or -1. */
  function LastIndexOf(s: string, c: char): (i: int)
    ensures -1 <= i < |s| && (i >= 0 ==> s[i] == c)
    ensures forall j :: i < j < |s| ==> s[j] != c
  {
    if s == [] then -1
    else if s[|s|-1] == c then |s| - 1
    else LastIndexOf(s[..|s|-1], c)
  }

  datatype ImageRef = ImageRef(repo: string, tag: Option<string>)

  function WithoutDigest(image: string): string {
    image[..IndexOf(image, '@')]
  }

  /** `_split_image`. */
  function SplitImage(image: string): ImageRef {
    var w := WithoutDigest(image);
    var i := LastIndexOf(w, ':');
    if i < 0 || '/' in w[i+1..] then ImageRef(w, None) else ImageRef(w[..i], Some(w[i+1..]))
  }

  predicate IsTag(tag: string) {
    '/' !in tag && ':' !in tag && '@' !in tag
  }

  lemma {:induction false} LastIndexIs(a: string, c: char, b: string)
    requires c !in b
    ensures LastIndexOf(a + [c] + b, c) == |a|
    decreases |b|
  {
    var s := a + [c] + b;
    if b == [] {
      assert s[|s|-1] == c;
    } else {
      assert s[|s|-1] == b[|b|-1];
      assert b[|b|-1] in b;
      assert s[..|s|-1] == a + [c] + b[..|b|-1];
      LastIndexIs(a, c, b[..|b|-1]);
    }
  }

  lemma DigestDropped(w: string, digest: Option<string>)
    requires '@' !in w
    ensures WithoutDigest(if digest.Some? then w + "@" + digest.value else w) == w
  {
    if digest.Some? {
      IndexOfFirst(w, '@', digest.value);
      assert w + "@" + digest.value == w + ['@'] + digest.value;
      assert (w + "@" + digest.value)[..|w|] == w;
    } else {
      assert IndexOf(w, '@') == |w|;
    }
  }

  /** A repo and a tag, put together with or without a digest, are split again; the repo may
      hold a registry port. */
  lemma TaggedSplits(repo: string, tag: string, digest: Option<string>)
    requires '@' !in repo && IsTag(tag)
    ensures var name := repo + ":" + tag;
      SplitImage(if digest.Some? then name + "@" + digest.value else name) == ImageRef(repo, Some(tag))
  {
    var name := repo + ":" + tag;
    DigestDropped(name, digest);
    LastIndexIs(repo, ':', tag);
    assert name == repo + [':'] + tag;
    assert name[..|repo|] == repo && name[|repo|+1..] == tag;
  }

  ghost predicate Tagged(w: string, repo: string, tag: string) {
    IsTag(tag) && w == repo + ":" + tag
  }

  /** No tag is reported exactly when there is none to find: the reference, up to its digest, is
      not a repo followed by a colon and a tag. So `host:port/path` is a repo without a tag. */
  lemma UntaggedIff(image: string)
    ensures SplitImage(image).tag.Some? <==> exists repo, tag :: Tagged(WithoutDigest(image), repo, tag)
    ensures SplitImage(image).tag.Some? ==> Tagged(WithoutDigest(image), SplitImage(image).repo, SplitImage(image).tag.value)
    ensures SplitImage(image).tag.None? ==> SplitImage(image).repo == WithoutDigest(image)
  {
    var w := WithoutDigest(image);
    if SplitImage(image).tag.Some? {
      var i := LastIndexOf(w, ':');
      assert w == w[..i] + ":" + w[i+1..];
      assert '@' !in w;
      forall c | c in w[i+1..]
        ensures c in w
      {
      }
      assert Tagged(w, w[..i], w[i+1..]);
    } else {
      forall repo, tag
        ensures !Tagged(w, repo, tag)
      {
        if IsTag(tag) {
          NotTagged(w, repo, tag);
        }
      }
    }
  }

  lemma NotTagged(w: string, repo: string, tag: string)
    requires LastIndexOf(w, ':') < 0 || '/' in w[LastIndexOf(w, ':')+1..]
    requires IsTag(tag)
    ensures w != repo + ":" + tag
  {
    if w == repo + ":" + tag {
      assert w == repo + [':'] + tag;
      LastIndexIs(repo, ':', tag);
    }
  }

  // ---------------------------------------------------------------- names

  /** The curated patterns and the generic suffixes of the source, as far as names depend on
      them: which repos a pattern matches, and which last segments say nothing by themselves. */
  datatype Naming = Naming(curated: seq<(string -> bool, string)>, isGeneric: string -> bool)

  /** `_strip_registry_host`. */
  function StripRegistryHost(repo: string): string {
    var i := IndexOf(repo, '/');
    if i < |repo| && (repo[..i] == "localhost" || '.' in repo[..i] || ':' in repo[..i]) then repo[i+1..] else repo
  }

  predicate NotEmpty(s: string) {
    s != []
  }

  /** `_fallback_name_from_repo`. */
  function FallbackName(isGeneric: string -> bool, repo: string): Option<string> {
    var parts := Filter(Split(StripRegistryHost(repo), '/'), NotEmpty);
    if |parts| == 0 then (if repo != [] then Some(repo) else None)
    else
      var last := parts[|parts|-1];
      Some(if isGeneric(last) && |parts| > 1 then parts[|parts|-2] + "-" + last else last)
  }

  function CuratedName(curated: seq<(string -> bool, string)>, repo: string): Option<string> {
    if curated == [] then None
    else if curated[0].0(repo) then Some(curated[0].1)
    else CuratedName(curated[1..], repo)
  }

  function VersionOf(tag: Option<string>): Option<string> {
    if tag.Some? && tag.value != "" && tag.value != "latest" then Some(LStrip(tag.value, 'v')) else None
  }

  /** `infer_software_from_image`. */
  function InferSoftware(naming: Naming, image: string): (Option<string>, Option<string>) {
    var r := SplitImage(image);
    var name := CuratedName(naming.curated, r.repo);
    (if name.Some? then name else FallbackName(naming.isGeneric, r.repo), VersionOf(r.tag))
  }

  ghost predicate NamesGiven(curated: seq<(string -> bool, string)>) {
    forall i :: 0 <= i < |curated| ==> curated[i].1 != ""
  }

  lemma {:induction false} CuratedGiven(curated: seq<(string -> bool, string)>, repo: string)
    requires NamesGiven(curated)
    ensures CuratedName(curated, repo) != Some("")
  {
    if curated != [] && !curated[0].0(repo) {
      CuratedGiven(curated[1..], repo);
    }
  }

  lemma FilteredKeep<T>(items: seq<T>, keep: T -> bool)
    ensures forall i :: 0 <= i < |Filter(items, keep)| ==> keep(Filter(items, keep)[i])
  {
    forall i | 0 <= i < |Filter(items, keep)|
      ensures keep(Filter(items, keep)[i])
    {
      FilterKeeps(items, keep, i);
    }
  }

  /** A name is always found, unless the repo is empty. */
  lemma FallbackFound(isGeneric: string -> bool, repo: string)
    ensures FallbackName(isGeneric, repo).None? <==> repo == ""
    ensures FallbackName(isGeneric, repo) != Some("")
  {
    var stripped := StripRegistryHost(repo);
    FilteredKeep(Split(stripped, '/'), NotEmpty);
    if repo == "" {
      assert stripped == "";
      assert Split(stripped, '/') == [stripped[..0]];
      assert Split(stripped, '/')[0] == "";
    }
  }

  /** No image is skipped: whatever the image, a name is inferred as soon as its repo is not empty. */
  lemma EveryImageNamed(naming: Naming, image: string)
    requires NamesGiven(naming.curated) && SplitImage(image).repo != ""
    ensures InferSoftware(naming, image).0.Some? && InferSoftware(naming, image).0.value != ""
  {
    CuratedGiven(naming.curated, SplitImage(image).repo);
    FallbackFound(naming.isGeneric, SplitImage(image).repo);
  }

  // ---------------------------------------------------------------- which name, which version

  /** The version is the tag without its leading `v`s; `latest`, like no tag, is no version. */
  lemma TagVersion(vs: string, rest: string)
    requires (forall i :: 0 <= i < |vs| ==> vs[i] == 'v') && (rest == [] || rest[0] != 'v')
    ensures VersionOf(None) == None && VersionOf(Some("latest")) == None && VersionOf(Some("")) == None
    ensures vs + rest != "" && vs + rest != "latest" ==> VersionOf(Some(vs + rest)) == Some(rest)
  {
    LStripDrops(vs, 'v', rest);
  }

  /** The first curated pattern that matches names the image, and without one its repo does. */
  lemma {:induction false} CuratedFirst(curated: seq<(string -> bool, string)>, repo: string, i: nat)
    ensures i < |curated| && curated[i].0(repo) && (forall j :: 0 <= j < i ==> !curated[j].0(repo)) ==>
      CuratedName(curated, repo) == Some(curated[i].1)
    ensures CuratedName(curated, repo).None? <==> forall j :: 0 <= j < |curated| ==> !curated[j].0(repo)
    decreases |curated|
  {
    if curated == [] {
    } else {
      CuratedFirst(curated[1..], repo, if i > 0 then i - 1 else 0);
      assert forall j :: 0 < j < |curated| ==> curated[j] == curated[1..][j - 1];
    }
  }

  /** A first segment is taken for a registry, and dropped, if it is `localhost` or holds a dot or a
      colon; a repo of one segment is left alone. */
  lemma RegistryDropped(first: string, rest: string)
    requires '/' !in first
    ensures StripRegistryHost(first + "/" + rest) ==
      if first == "localhost" || '.' in first || ':' in first then rest else first + "/" + rest
    ensures StripRegistryHost(first) == first
  {
    IndexOfFirst(first, '/', rest);
    var repo := first + "/" + rest;
    assert repo == first + ['/'] + rest;
    assert repo[..|first|] == first && repo[|first| + 1..] == rest;
    assert IndexOf(first, '/') == |first|;
  }

  lemma SegmentsOf(path: string, last: string)
    requires '/' !in last && last != ""
    ensures Filter(Split(last, '/'), NotEmpty) == [last]
    ensures Filter(Split(path + "/" + last, '/'), NotEmpty) == Filter(Split(path, '/'), NotEmpty) + [last]
  {
    SplitOne(last, '/');
    FilterSnoc([], last, NotEmpty);
    assert [] + [last] == [last];
    SplitLast(path, '/', last);
    assert path + "/" + last == path + ['/'] + last;
    FilterSnoc(Split(path, '/'), last, NotEmpty);
  }

  /** The name is the last segment; a generic one is told apart by the segment before it, if there
      is one besides the registry. */
  lemma SegmentNames(isGeneric: string -> bool, repo: string, path: string, owner: string, last: string)
    requires '/' !in last && last != "" && '/' !in owner && owner != ""
    ensures StripRegistryHost(repo) == last ==> FallbackName(isGeneric, repo) == Some(last)
    ensures StripRegistryHost(repo) == owner + "/" + last || StripRegistryHost(repo) == path + "/" + owner + "/" + last ==>
      FallbackName(isGeneric, repo) == Some(if isGeneric(last) then owner + "-" + last else last)
  {
    SegmentsOf(owner, last);
    SegmentsOf(path + "/" + owner, last);
    SegmentsOf(path, owner);
  }

  /** End to end for an image with a tag, with or without a digest: the version is the tag without
      its leading `v`s, and the name that of the first curated pattern, or the last segment. */
  lemma ImageRead(naming: Naming, repo: string, vs: string, rest: string, digest: Option<string>, i: nat, path: string, owner: string, last: string)
    requires '@' !in repo && IsTag(vs + rest) && vs + rest != "" && vs + rest != "latest"
    requires (forall k :: 0 <= k < |vs| ==> vs[k] == 'v') && (rest == [] || rest[0] != 'v')
    requires '/' !in last && last != "" && '/' !in owner && owner != ""
    ensures var name := repo + ":" + (vs + rest);
      var image := if digest.Some? then name + "@" + digest.value else name;
      && InferSoftware(naming, image).1 == Some(rest)
      && (i < |naming.curated| && naming.curated[i].0(repo) && (forall j :: 0 <= j < i ==> !naming.curated[j].0(repo)) ==>
            InferSoftware(naming, image).0 == Some(naming.curated[i].1))
      && ((forall j :: 0 <= j < |naming.curated| ==> !naming.curated[j].0(repo)) && StripRegistryHost(repo) == path + "/" + owner + "/" + last ==>
            InferSoftware(naming, image).0 == Some(if naming.isGeneric(last) then owner + "-" + last else last))
  {
    TaggedSplits(repo, vs + rest, digest);
    TagVersion(vs, rest);
    CuratedFirst(naming.curated, repo, i);
    SegmentNames(naming.isGeneric, repo, path, owner, last);
  }

  // ---------------------------------------------------------------- inventory

  datatype Container = Container(kind: string, namespace: string, workload: string, image: string)

  datatype Software = Software(name: string, version: Option<string>, origin: Container)

  datatype Place = Place(name: string, namespace: string)

  function PlaceOf(s: Software): Place {
    Place(s.name, s.origin.namespace)
  }

  function Tie(s: Software): int {
    0
  }

  /** What a container contributes: nothing without an image or without a name. */
  function Recognised(naming: Naming, c: Container): seq<Software> {
    var inferred := InferSoftware(naming, c.image);
    if c.image == "" || inferred.0.None? || inferred.0.value == "" then []
    else [Software(inferred.0.value, inferred.1, c)]
  }

  function RecognisedAll(naming: Naming, containers: seq<Container>): seq<Software> {
    if containers == [] then []
    else RecognisedAll(naming, containers[..|containers|-1]) + Recognised(naming, containers[|containers|-1])
  }

  function Inventory(naming: Naming, containers: seq<Container>): seq<Software> {
    Rows(RecognisedAll(naming, containers), PlaceOf, Tie)
  }

  /** `collect_software_inventory`, over the containers of all workloads in the order in which
      the source visits them. */
  method CollectSoftwareInventory(naming: Naming, containers: seq<Container>) returns (inventory: seq<Software>)
    ensures inventory == Inventory(naming, containers)
  {
    var found := Empty();
    ghost var seen := [];
    HoldsEmpty(PlaceOf, Tie);
    for i := 0 to |containers|
      invariant seen == RecognisedAll(naming, containers[..i]) && Holds(found, seen, PlaceOf, Tie)
    {
      assert containers[..i + 1][..i] == containers[..i];
      found := Add(naming, found, seen, containers[i]);
      seen := seen + Recognised(naming, containers[i]);
    }
    assert containers[..|containers|] == containers;
    HoldsRows(found, seen, PlaceOf, Tie);
    inventory := Values(found);
  }

  /** One round of the loop. */
  method Add(naming: Naming, found: Dict<Place, Software>, ghost seen: seq<Software>, c: Container)
    returns (more: Dict<Place, Software>)
    requires Holds(found, seen, PlaceOf, Tie)
    ensures Holds(more, seen + Recognised(naming, c), PlaceOf, Tie)
  {
    more := found;
    assert seen + [] == seen;
    if c.image == "" {
      return;
    }
    var inferred := InferSoftware(naming, c.image);
    if inferred.0.None? || inferred.0.value == "" {
      return;
    }
    var s := Software(inferred.0.value, inferred.1, c);
    HoldsNext(found, seen, s, PlaceOf, Tie);
    if PlaceOf(s) !in found.at {
      more := Put(found, PlaceOf(s), s);
    }
  }

  lemma {:induction false} RecognisedHolds(naming: Naming, containers: seq<Container>, i: nat) returns (j: nat)
    requires i < |containers| && Recognised(naming, containers[i]) != []
    ensures j < |RecognisedAll(naming, containers)|
    ensures RecognisedAll(naming, containers)[j] == Recognised(naming, containers[i])[0]
  {
    var n := |containers| - 1;
    if i == n {
      j := |RecognisedAll(naming, containers[..n])|;
    } else {
      j := RecognisedHolds(naming, containers[..n], i);
    }
  }

  /** No software twice in a namespace, and each row is the first of its kind. */
  lemma InventoryFirstWins(naming: Naming, containers: seq<Container>)
    ensures var inventory, all := Inventory(naming, containers), RecognisedAll(naming, containers);
      && (forall i, j :: 0 <= i < j < |inventory| ==>
            inventory[i].name != inventory[j].name || inventory[i].origin.namespace != inventory[j].origin.namespace)
      && (forall i :: 0 <= i < |inventory| ==> FirstOfKind(all, inventory[i]))
  {
    var inventory, all := Inventory(naming, containers), RecognisedAll(naming, containers);
    RowsExact(all, PlaceOf, Tie);
    forall i | 0 <= i < |inventory|
      ensures FirstOfKind(all, inventory[i])
    {
      RowIsFirst(all, i);
    }
  }

  ghost predicate FirstOfKind(all: seq<Software>, row: Software) {
    exists p :: FirstWithKey(all, PlaceOf, p) && all[p] == row
  }

  lemma RowIsFirst(all: seq<Software>, i: nat)
    requires i < |Rows(all, PlaceOf, Tie)|
    ensures FirstOfKind(all, Rows(all, PlaceOf, Tie)[i])
  {
    var k := Keys(all, PlaceOf)[i];
    KeyHasBest(all, PlaceOf, Tie, k);
    var p := BestAt(all, PlaceOf, Tie, k);
    forall r | 0 <= r < p
      ensures PlaceOf(all[r]) != PlaceOf(all[p])
    {
      assert Tie(all[r]) == Tie(all[p]);
    }
    assert FirstWithKey(all, PlaceOf, p);
  }

  /** What a row says is what the image of its own container says. */
  ghost predicate SaysItsImage(naming: Naming, containers: seq<Container>, row: Software) {
    && row.origin in containers && row.origin.image != ""
    && InferSoftware(naming, row.origin.image) == (Some(row.name), row.version) && row.name != ""
  }

  lemma {:induction false} RecognisedSays(naming: Naming, containers: seq<Container>)
    ensures forall s :: s in RecognisedAll(naming, containers) ==> SaysItsImage(naming, containers, s)
  {
    if containers == [] {
    } else {
      RecognisedSays(naming, containers[..|containers|-1]);
    }
  }

  lemma InventorySays(naming: Naming, containers: seq<Container>)
    ensures forall s :: s in Inventory(naming, containers) ==> SaysItsImage(naming, containers, s)
  {
    RecognisedSays(naming, containers);
    RowsStayIn(RecognisedAll(naming, containers), PlaceOf, Tie);
  }

  /** No container is missed whose image names a repo. */
  lemma InventoryComplete(naming: Naming, containers: seq<Container>, i: nat)
    requires NamesGiven(naming.curated) && i < |containers|
    requires containers[i].image != "" && SplitImage(containers[i].image).repo != ""
    ensures Listed(naming, containers, i)
  {
    EveryImageNamed(naming, containers[i].image);
    var all := RecognisedAll(naming, containers);
    var j := RecognisedHolds(naming, containers, i);
    var r := RowAbove(all, PlaceOf, Tie, j);
    assert PlaceOf(Inventory(naming, containers)[r]) == PlaceOf(all[j]);
  }

  /** Some row stands for the software of container `i` in its namespace. */
  ghost predicate Listed(naming: Naming, containers: seq<Container>, i: int)
    requires 0 <= i < |containers|
  {
    exists r :: 0 <= r < |Inventory(naming, containers)|
      && Some(Inventory(naming, containers)[r].name) == InferSoftware(naming, containers[i].image).0
      && Inventory(naming, containers)[r].origin.namespace == containers[i].namespace
  }

  // ---------------------------------------------------------------- manifests

  function Itself(o: Api.Observed): Api.Observed {
    o
  }

  function NoScore(o: Api.Observed): int {
    0
  }

  /** `to_observed`: each manifest once, in order of first appearance. */
  function ToObserved(gathered: seq<Api.Observed>): seq<Api.Observed> {
    Keys(gathered, Itself)
  }

  method ComputeToObserved(gathered: seq<Api.Observed>) returns (observed: seq<Api.Observed>)
    ensures observed == ToObserved(gathered)
  {
    var seen := {};
    observed := [];
    for i := 0 to |gathered|
      invariant observed == Keys(gathered[..i], Itself)
      invariant forall o :: o in seen <==> o in observed
    {
      assert gathered[..i + 1][..i] == gathered[..i];
      if gathered[i] !in seen {
        seen := seen + {gathered[i]};
        observed := observed + [gathered[i]];
      }
    }
    assert gathered[..|gathered|] == gathered;
  }

  /** Nothing is lost and nothing is repeated. */
  lemma ObservedOnce(gathered: seq<Api.Observed>)
    ensures forall o :: o in ToObserved(gathered) <==> o in gathered
    ensures forall i, j :: 0 <= i < j < |ToObserved(gathered)| ==> ToObserved(gathered)[i] != ToObserved(gathered)[j]
  {
    KeysDistinct(gathered, Itself);
    forall o
      ensures o in ToObserved(gathered) <==> o in gathered
    {
      KeyHasBest(gathered, Itself, NoScore, o);
      if o in gathered {
        var j :| 0 <= j < |gathered| && gathered[j] == o;
        KeyCovers(gathered, Itself, j);
      }
    }
  }
}
