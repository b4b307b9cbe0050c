/** Version texts: `_parse_version`, `minor_label`, `_minor_tuple`, and the
    minor-by-minor path of `compute_upgrade_path`. */
module Versions {
  import opened Wrappers
  import opened Text

  /** What the Python code raises: ValueError from `int`, IndexError for a text without a dot,
      and the explicit ValueError for a target that is not a higher minor of the same major. */
  datatype PathError = NotANumber | MissingMinor | NotAnUpgrade

  datatype Version = Version(major: int, minor: int, hasPatch: bool)

  /** `_parse_version`; only whether a numeric patch is present matters to the path. */
  function ParseVersion(v: string): Result<Version, PathError> {
    var parts := Split(v, '.');
    match ParseInt(parts[0])
    case None => Err(NotANumber)
    case Some(major) =>
      if |parts| < 2 then Err(MissingMinor)
      else
        match ParseInt(parts[1])
        case None => Err(NotANumber)
        case Some(minor) => Ok(Version(major, minor, |parts| > 2 && AllDigits(parts[2])))
  }

  /** `text.isdigit()`. */
  predicate AllDigits(s: string) {
    s != [] && forall i :: 0 <= i < |s| ==> IsDigit(s[i])
  }

  /** `minor_label`: the first two dotted parts; None stands for the IndexError. */
  function MinorLabel(v: string): Option<string> {
    var parts := Split(v, '.');
    if |parts| < 2 then None else Some(parts[0] + "." + parts[1])
  }

  /** `_minor_tuple`: the numeric (major, minor) of a text; None stands for the ValueError. */
  function MinorTuple(v: string): Option<(int, int)> {
    var parts := Split(LStrip(v, 'v'), '.');
    if |parts| < 2 then None
    else
      match (ParseInt(parts[0]), ParseInt(parts[1]))
      case (Some(major), Some(minor)) => Some((major, minor))
      case _ => None
  }

  /** Python's order on (major, minor) pairs. */
  predicate PairAtMost(a: (int, int), b: (int, int)) {
    a.0 < b.0 || (a.0 == b.0 && a.1 <= b.1)
  }

  predicate PairLess(a: (int, int), b: (int, int)) {
    PairAtMost(a, b) && a != b
  }

  function IntermediateVersion(major: int, minor: int): string {
    PrintInt(major) + "." + PrintInt(minor) + ".x"
  }

  /** Whether `compute_upgrade_path` accepts the two versions. */
  predicate IsUpgrade(cur: Version, tgt: Version) {
    tgt.major == cur.major && cur.minor < tgt.minor
  }

  /** Entry `i` of the path: the current text first, then one generated version per minor,
      except that a target with a patch stands for itself. */
  function PathEntry(current: string, target: string, cur: Version, tgt: Version, i: nat): string {
    if i == 0 then current
    else if i == tgt.minor - cur.minor && tgt.hasPatch then target
    else IntermediateVersion(cur.major, cur.minor + i)
  }

  function PathBetween(current: string, target: string, cur: Version, tgt: Version): (path: seq<string>)
    requires IsUpgrade(cur, tgt)
    ensures |path| == tgt.minor - cur.minor + 1
    ensures forall i :: 0 <= i < |path| ==> path[i] == PathEntry(current, target, cur, tgt, i)
  {
    seq(tgt.minor - cur.minor + 1, i requires i >= 0 => PathEntry(current, target, cur, tgt, i))
  }

  function UpgradePath(current: string, target: string): Result<seq<string>, PathError> {
    match ParseVersion(current)
    case Err(e) => Err(e)
    case Ok(cur) =>
      match ParseVersion(target)
      case Err(e) => Err(e)
      case Ok(tgt) =>
        if !IsUpgrade(cur, tgt) then Err(NotAnUpgrade) else Ok(PathBetween(current, target, cur, tgt))
  }

  /** `compute_upgrade_path`: a loop that appends one intermediate version per minor. */
  method ComputeUpgradePath(current: string, target: string) returns (r: Result<seq<string>, PathError>)
    ensures r == UpgradePath(current, target)
  {
    var c := ParseVersion(current);
    if c.Err? { return Err(c.error); }
    var t := ParseVersion(target);
    if t.Err? { return Err(t.error); }
    if !IsUpgrade(c.value, t.value) {
      return Err(NotAnUpgrade);
    }
    var path := AppendMinors(current, target, c.value, t.value);
    r := Ok(path);
  }

  method AppendMinors(current: string, target: string, cur: Version, tgt: Version) returns (path: seq<string>)
    requires IsUpgrade(cur, tgt)
    ensures path == PathBetween(current, target, cur, tgt)
  {
    ghost var full := PathBetween(current, target, cur, tgt);
    path := [current];
    assert path == full[..1];
    for m := cur.minor + 1 to tgt.minor
      invariant path == full[..m - cur.minor]
    {
      TakeNext(full, m - cur.minor);
      path := path + [IntermediateVersion(cur.major, m)];
    }
    var last := if tgt.hasPatch then target else IntermediateVersion(tgt.major, tgt.minor);
    TakeNext(full, tgt.minor - cur.minor);
    path := path + [last];
    assert full[..|full|] == full;
  }

  lemma TakeNext(full: seq<string>, k: nat)
    requires k < |full|
    ensures full[..k + 1] == full[..k] + [full[k]]
  {
  }

  // ---------------------------------------------------------------- what the labels mean

  /** The numeric reading of a label agrees with the version it was cut from. */
  lemma LabelReadsBack(v: string)
    requires ParseVersion(v).Ok?
    ensures MinorLabel(v).Some?
    ensures MinorTuple(MinorLabel(v).value) == Some((ParseVersion(v).value.major, ParseVersion(v).value.minor))
  {
    var parts := Split(v, '.');
    var text := parts[0] + "." + parts[1];
    ParseIntHead(parts[0]);
    assert LStrip(text, 'v') == text;
    SplitTwo(parts[0], parts[1]);
  }

  lemma HeadPart(b: string, tail: string)
    requires '.' !in b && (tail == [] || tail[0] == '.')
    ensures Split(b + tail, '.')[0] == b
  {
    if tail == [] {
      assert b + tail == b;
      SplitOne(b, '.');
    } else {
      var rest := tail[1..];
      assert tail == ['.'] + rest;
      assert b + tail == b + ['.'] + rest;
      SplitCons(b, '.', rest);
    }
  }

  lemma SecondIs<T>(first: T, rest: seq<T>)
    requires rest != []
    ensures |[first] + rest| >= 2 && ([first] + rest)[0] == first && ([first] + rest)[1] == rest[0]
  {
  }

  lemma FirstTwoParts(a: string, b: string, tail: string)
    requires '.' !in a && '.' !in b && (tail == [] || tail[0] == '.')
    ensures |Split(a + "." + b + tail, '.')| >= 2
    ensures Split(a + "." + b + tail, '.')[0] == a && Split(a + "." + b + tail, '.')[1] == b
  {
    var rest := b + tail;
    assert a + "." + b + tail == a + ['.'] + rest;
    HeadPart(b, tail);
    SplitCons(a, '.', rest);
    SecondIs(a, Split(rest, '.'));
  }

  /** How versions are written in the guide: with or without a leading `v`, with or without
      further parts after the minor. */
  lemma MinorTupleReads(vs: string, major: nat, minor: int, tail: string)
    requires (forall i :: 0 <= i < |vs| ==> vs[i] == 'v') && (tail == [] || tail[0] == '.')
    ensures MinorTuple(vs + (PrintInt(major) + "." + PrintInt(minor) + tail)) == Some((major, minor))
  {
    var a, b := PrintInt(major), PrintInt(minor);
    var text := a + "." + b + tail;
    assert text[0] == a[0] && IsDigit(a[0]);
    LStripDrops(vs, 'v', text);
    ParsePrintInt(major);
    ParsePrintInt(minor);
    FirstTwoParts(a, b, tail);
  }

  /** The canonical text of a minor. */
  function Label(major: int, minor: int): string {
    PrintInt(major) + "." + PrintInt(minor)
  }

  lemma SplitThree(a: string, b: string, c: string)
    requires '.' !in a && '.' !in b && '.' !in c
    ensures Split(a + "." + b + "." + c, '.') == [a, b, c]
  {
    SplitTwo(b, c);
    SplitCons(a, '.', b + "." + c);
    RegroupDots(a, b, c);
  }

  lemma SplitTwo(a: string, b: string)
    requires '.' !in a && '.' !in b
    ensures Split(a + "." + b, '.') == [a, b]
  {
    SplitCons(a, '.', b);
    SplitOne(b, '.');
    assert a + "." + b == a + ['.'] + b;
  }

  lemma RegroupDots(a: string, b: string, c: string)
    ensures a + "." + b + "." + c == a + ['.'] + (b + "." + c)
  {
  }

  lemma IntermediateParses(major: int, minor: int)
    ensures ParseVersion(IntermediateVersion(major, minor)) == Ok(Version(major, minor, false))
    ensures MinorLabel(IntermediateVersion(major, minor)) == Some(Label(major, minor))
  {
    ParsePrintInt(major);
    ParsePrintInt(minor);
    var a, b := PrintInt(major), PrintInt(minor);
    SplitThree(a, b, "x");
    assert IntermediateVersion(major, minor) == a + "." + b + "." + "x";
    assert !IsDigit("x"[0]);
  }

  /** When a path exists: both texts parse, the major is kept, and the minor grows. In every
      other case an error is raised, and the guard's own error means that both texts parsed. */
  lemma PathExists(current: string, target: string)
    ensures UpgradePath(current, target).Ok? <==>
      && ParseVersion(current).Ok? && ParseVersion(target).Ok?
      && IsUpgrade(ParseVersion(current).value, ParseVersion(target).value)
    ensures UpgradePath(current, target) == Err(NotAnUpgrade) <==>
      && ParseVersion(current).Ok? && ParseVersion(target).Ok?
      && !UpgradePath(current, target).Ok?
  {
    var c, t := ParseVersion(current), ParseVersion(target);
    ParseErrors(current);
    ParseErrors(target);
  }

  lemma ParseErrors(v: string)
    ensures ParseVersion(v) != Err(NotAnUpgrade)
  {
    var parts := Split(v, '.');
    match ParseInt(parts[0])
    case None =>
    case Some(major) =>
  }

  /** The numeric reading of the label of a path entry. */
  ghost predicate ReadsAs(entry: string, major: int, minor: int) {
    MinorLabel(entry).Some? && MinorTuple(MinorLabel(entry).value) == Some((major, minor))
  }

  /** Entry `i` reads as minor `current + i`. */
  lemma PathEntryReads(current: string, target: string, cur: Version, tgt: Version, i: nat)
    requires ParseVersion(current) == Ok(cur) && ParseVersion(target) == Ok(tgt)
    requires IsUpgrade(cur, tgt) && i <= tgt.minor - cur.minor
    ensures ReadsAs(PathEntry(current, target, cur, tgt, i), cur.major, cur.minor + i)
  {
    if i == 0 {
      LabelReadsBack(current);
    } else if i == tgt.minor - cur.minor && tgt.hasPatch {
      LabelReadsBack(target);
    } else {
      IntermediateParses(cur.major, cur.minor + i);
      LabelReadsBack(IntermediateVersion(cur.major, cur.minor + i));
    }
  }

  /** The path steps through every minor exactly once: one entry per minor, starting from the
      current text, entry `i` reading as minor `current + i`. */
  lemma PathSteps(current: string, target: string, path: seq<string>, cur: Version, tgt: Version)
    requires UpgradePath(current, target) == Ok(path)
    requires ParseVersion(current) == Ok(cur) && ParseVersion(target) == Ok(tgt)
    ensures |path| == tgt.minor - cur.minor + 1 && |path| >= 2
    ensures path[0] == current
    ensures forall i :: 0 <= i < |path| ==> ReadsAs(path[i], cur.major, cur.minor + i)
  {
    assert path == PathBetween(current, target, cur, tgt);
    forall i | 0 <= i < |path|
      ensures ReadsAs(path[i], cur.major, cur.minor + i)
    {
      PathEntryReads(current, target, cur, tgt, i);
    }
  }

  // ---------------------------------------------------------------- target minors

  /** `[minor_label(v) for v in path]`; None stands for the IndexError. */
  function Labels(path: seq<string>): (r: Option<seq<string>>)
    ensures r.Some? <==> forall i :: 0 <= i < |path| ==> MinorLabel(path[i]).Some?
    ensures r.Some? ==> |r.value| == |path|
    ensures r.Some? ==> forall i :: 0 <= i < |path| ==> r.value[i] == MinorLabel(path[i]).value
  {
    if path == [] then Some([])
    else
      match (Labels(path[..|path|-1]), MinorLabel(path[|path|-1]))
      case (Some(ls), Some(l)) => Some(ls + [l])
      case _ => None
  }

  /** `_target_minors`: the labels after the current version, or all of them if that is empty. */
  function TargetMinors(path: seq<string>): Option<seq<string>> {
    if |path| > 1 then Labels(path[1..]) else Labels(path)
  }

  /** The current version is evaluated itself only if there is nothing after it. */
  lemma TargetsAfterFirst(first: string, rest: seq<string>)
    ensures TargetMinors([first] + rest) == if rest == [] then Labels([first]) else Labels(rest)
    ensures TargetMinors([]) == Some([])
  {
    assert ([first] + rest)[1..] == rest;
    assert rest == [] ==> [first] + rest == [first];
  }

  /** Minors in strictly increasing numeric order, all readable. */
  ghost predicate Ascending(labels: seq<string>) {
    && (forall i :: 0 <= i < |labels| ==> MinorTuple(labels[i]).Some?)
    && (forall i, j :: 0 <= i < j < |labels| ==> PairLess(MinorTuple(labels[i]).value, MinorTuple(labels[j]).value))
  }

  /** The minors an accepted upgrade visits: one per step, numerically consecutive. */
  lemma PathMinors(current: string, target: string, path: seq<string>, cur: Version, tgt: Version)
    requires UpgradePath(current, target) == Ok(path)
    requires ParseVersion(current) == Ok(cur) && ParseVersion(target) == Ok(tgt)
    ensures TargetMinors(path).Some?
    ensures |TargetMinors(path).value| == tgt.minor - cur.minor == |path| - 1
    ensures forall i :: 0 <= i < |TargetMinors(path).value| ==>
      MinorTuple(TargetMinors(path).value[i]) == Some((cur.major, cur.minor + i + 1))
    ensures Ascending(TargetMinors(path).value)
  {
    PathSteps(current, target, path, cur, tgt);
    forall i | 0 <= i < |path| - 1
      ensures MinorLabel(path[1..][i]).Some?
      ensures MinorTuple(MinorLabel(path[1..][i]).value) == Some((cur.major, cur.minor + i + 1))
    {
      assert path[1..][i] == path[i + 1];
      assert ReadsAs(path[i + 1], cur.major, cur.minor + (i + 1));
    }
  }

  // ---------------------------------------------------------------- canonical targets

  /** The label of a target is written canonically, or the target has no patch (and then the
      path's last entry is generated, hence canonical). A caller can check this up front. */
  predicate CanonicalTarget(target: string) {
    match ParseVersion(target)
    case Err(_) => false
    case Ok(tgt) => tgt.hasPatch ==> MinorLabel(target) == Some(Label(tgt.major, tgt.minor))
  }

  lemma CanonicalMeans(target: string, tgt: Version)
    requires ParseVersion(target) == Ok(tgt)
    ensures CanonicalTarget(target) <==> (tgt.hasPatch ==> MinorLabel(target) == Some(Label(tgt.major, tgt.minor)))
  {
  }

  lemma PathAt(current: string, target: string, path: seq<string>, cur: Version, tgt: Version, i: nat)
    requires UpgradePath(current, target) == Ok(path)
    requires ParseVersion(current) == Ok(cur) && ParseVersion(target) == Ok(tgt)
    requires i < |path|
    ensures IsUpgrade(cur, tgt) && |path| == tgt.minor - cur.minor + 1
    ensures path[i] == PathEntry(current, target, cur, tgt, i)
  {
    assert path == PathBetween(current, target, cur, tgt);
  }

  /** How the path is spelled: the two ends as they were given, as far as the target has a patch,
      and `<major>.<minor>.x` for everything generated. */
  lemma PathSpelled(current: string, target: string, path: seq<string>, cur: Version, tgt: Version, i: nat)
    requires UpgradePath(current, target) == Ok(path)
    requires ParseVersion(current) == Ok(cur) && ParseVersion(target) == Ok(tgt)
    requires i < |path|
    ensures path[0] == current && (tgt.hasPatch ==> path[|path| - 1] == target)
    ensures i > 0 && (i < |path| - 1 || !tgt.hasPatch) ==> path[i] == PrintInt(cur.major) + "." + PrintInt(cur.minor + i) + ".x"
  {
    PathAt(current, target, path, cur, tgt, 0);
    PathAt(current, target, path, cur, tgt, i);
    PathAt(current, target, path, cur, tgt, |path| - 1);
  }

  /** A version has a patch exactly when its third dotted part is there and made of digits. */
  lemma PatchIff(major: int, minor: int, third: string, tail: string)
    requires '.' !in third && (tail == [] || tail[0] == '.')
    ensures var version := ParseVersion(PrintInt(major) + "." + PrintInt(minor) + ("." + third + tail));
      && version.Ok? && version.value.major == major && version.value.minor == minor
      && (version.value.hasPatch <==> third != "" && forall i :: 0 <= i < |third| ==> '0' <= third[i] <= '9')
    ensures ParseVersion(PrintInt(major) + "." + PrintInt(minor)) == Ok(Version(major, minor, false))
  {
    ParsePrintInt(major);
    ParsePrintInt(minor);
    SplitTwo(PrintInt(major), PrintInt(minor));
    ThirdPart(PrintInt(major), PrintInt(minor), third, tail);
  }

  lemma ThirdPart(a: string, b: string, c: string, tail: string)
    requires '.' !in a && '.' !in b && '.' !in c && (tail == [] || tail[0] == '.')
    ensures var parts := Split(a + "." + b + ("." + c + tail), '.');
      |parts| >= 3 && parts[0] == a && parts[1] == b && parts[2] == c
  {
    assert a + "." + b + ("." + c + tail) == a + ['.'] + (b + "." + c + tail);
    SplitCons(a, '.', b + "." + c + tail);
    FirstTwoParts(b, c, tail);
  }

  /** Step `i` of the path carries the canonical label of its minor exactly when it is not the
      last step or the target is canonical: `1.036.2` leaves the odd label `1.036` there. */
  lemma PathLabelCanonical(current: string, target: string, path: seq<string>, cur: Version, tgt: Version, i: nat)
    requires UpgradePath(current, target) == Ok(path)
    requires ParseVersion(current) == Ok(cur) && ParseVersion(target) == Ok(tgt)
    requires 0 < i < |path|
    ensures MinorLabel(path[i]) == Some(Label(cur.major, cur.minor + i)) <==>
      i < tgt.minor - cur.minor || CanonicalTarget(target)
  {
    PathAt(current, target, path, cur, tgt, i);
    EntryCanonical(current, target, cur, tgt, i);
  }

  lemma EntryCanonical(current: string, target: string, cur: Version, tgt: Version, i: nat)
    requires ParseVersion(target) == Ok(tgt) && IsUpgrade(cur, tgt)
    requires 0 < i <= tgt.minor - cur.minor
    ensures MinorLabel(PathEntry(current, target, cur, tgt, i)) == Some(Label(cur.major, cur.minor + i)) <==>
      i < tgt.minor - cur.minor || CanonicalTarget(target)
  {
    CanonicalMeans(target, tgt);
    EntryLabel(current, target, cur, tgt, i);
  }

  lemma EntryLabel(current: string, target: string, cur: Version, tgt: Version, i: nat)
    requires 0 < i
    ensures !(i == tgt.minor - cur.minor && tgt.hasPatch) ==>
      MinorLabel(PathEntry(current, target, cur, tgt, i)) == Some(Label(cur.major, cur.minor + i))
    ensures i == tgt.minor - cur.minor && tgt.hasPatch ==> PathEntry(current, target, cur, tgt, i) == target
  {
    IntermediateParses(cur.major, cur.minor + i);
  }

  /** Target minor `i` reads as minor `base + i + 1`, and is spelled canonically unless it is
      the last one of a target that is not. */
  ghost predicate SpelledAt(read: string -> Option<(int, int)>, spell: (int, int) -> string,
                            minors: seq<string>, major: int, base: int, canonical: bool, i: int) {
    0 <= i < |minors| ==>
      && read(minors[i]) == Some((major, base + i + 1))
      && (minors[i] == spell(major, base + i + 1) <==> i < |minors| - 1 || canonical)
  }

  lemma TargetMinorsSpelled(current: string, target: string, path: seq<string>, cur: Version)
    requires UpgradePath(current, target) == Ok(path) && ParseVersion(current) == Ok(cur)
    ensures TargetMinors(path).Some? && |TargetMinors(path).value| == |path| - 1 >= 1
    ensures Ascending(TargetMinors(path).value)
    ensures forall i :: SpelledAt(MinorTuple, Label, TargetMinors(path).value, cur.major, cur.minor, CanonicalTarget(target), i)
  {
    var tgt := ParseVersion(target).value;
    PathMinors(current, target, path, cur, tgt);
    forall i
      ensures SpelledAt(MinorTuple, Label, TargetMinors(path).value, cur.major, cur.minor, CanonicalTarget(target), i)
    {
      if 0 <= i < |path| - 1 {
        TargetMinorSpelled(current, target, path, cur, tgt, TargetMinors(path).value, i);
      }
    }
  }

  lemma TargetMinorSpelled(current: string, target: string, path: seq<string>, cur: Version, tgt: Version, minors: seq<string>, i: nat)
    requires UpgradePath(current, target) == Ok(path) && TargetMinors(path) == Some(minors)
    requires ParseVersion(current) == Ok(cur) && ParseVersion(target) == Ok(tgt)
    requires i < |path| - 1
    ensures SpelledAt(MinorTuple, Label, minors, cur.major, cur.minor, CanonicalTarget(target), i)
  {
    PathMinors(current, target, path, cur, tgt);
    PathLabelCanonical(current, target, path, cur, tgt, i + 1);
    TargetMinorIs(path, minors, i);
  }

  lemma TargetMinorIs(path: seq<string>, minors: seq<string>, i: nat)
    requires |path| > 1 && TargetMinors(path) == Some(minors) && i < |path| - 1
    ensures |minors| == |path| - 1 && MinorLabel(path[i + 1]) == Some(minors[i])
  {
    assert path[1..][i] == path[i + 1];
  }

  lemma SpelledPrefix(read: string -> Option<(int, int)>, spell: (int, int) -> string,
                      ps: seq<string>, qs: seq<string>, major: int, base: int, near: bool, far: bool)
    requires 1 <= |ps| < |qs|
    requires forall i :: SpelledAt(read, spell, ps, major, base, near, i)
    requires forall i :: SpelledAt(read, spell, qs, major, base, far, i)
    ensures near <==> ps[|ps|-1] in qs
    ensures near <==> ps <= qs
  {
    forall i | 0 <= i < |ps|
      ensures i < |ps| - 1 ==> ps[i] == qs[i]
      ensures i == |ps| - 1 ==> (ps[i] == qs[i] <==> near)
    {
      assert SpelledAt(read, spell, ps, major, base, near, i) && SpelledAt(read, spell, qs, major, base, far, i);
    }
    forall j | 0 <= j < |qs| && qs[j] == ps[|ps| - 1]
      ensures j == |ps| - 1
    {
      assert SpelledAt(read, spell, ps, major, base, near, |ps| - 1) && SpelledAt(read, spell, qs, major, base, far, j);
    }
  }

  /** A strictly nearer target visits the first minors of a farther one, spelled alike, exactly
      when the nearer target is canonical. */
  lemma NearerPathIsPrefix(current: string, near: string, far: string, p: seq<string>, q: seq<string>)
    requires UpgradePath(current, near) == Ok(p) && UpgradePath(current, far) == Ok(q) && |p| < |q|
    ensures TargetMinors(p).Some? && TargetMinors(q).Some?
    ensures 1 <= |TargetMinors(p).value| < |TargetMinors(q).value| && Ascending(TargetMinors(q).value)
    ensures CanonicalTarget(near) <==> TargetMinors(p).value[|TargetMinors(p).value| - 1] in TargetMinors(q).value
    ensures CanonicalTarget(near) <==> TargetMinors(p).value <= TargetMinors(q).value
  {
    var cur := ParseVersion(current).value;
    TargetMinorsSpelled(current, near, p, cur);
    TargetMinorsSpelled(current, far, q, cur);
    SpelledPrefix(MinorTuple, Label, TargetMinors(p).value, TargetMinors(q).value, cur.major, cur.minor,
                  CanonicalTarget(near), CanonicalTarget(far));
  }

  // ---------------------------------------------------------------- odd spellings

  /** The value of a text of digits, leading zeros included. */
  function DigitsValue(s: string): nat
    requires s == [] || AllDigits(s)
  {
    if s == [] then 0 else 10 * DigitsValue(s[..|s|-1]) + DigitValue(s[|s|-1])
  }

  lemma {:induction false} ReadsDigits(s: string)
    requires AllDigits(s)
    ensures ParseNat(s) == Some(DigitsValue(s))
  {
    if |s| == 1 {
      assert s[..0] == [];
    } else {
      ReadsDigits(s[..|s|-1]);
    }
  }

  lemma ReadsNumber(s: string)
    requires AllDigits(s)
    ensures ParseInt(s) == Some(DigitsValue(s)) && '.' !in s
  {
    StripIdentity(s);
    ReadsDigits(s);
  }

  lemma PlainVersion(a: string, b: string)
    requires AllDigits(a) && AllDigits(b)
    ensures ParseVersion(a + "." + b) == Ok(Version(DigitsValue(a), DigitsValue(b), false))
    ensures MinorLabel(a + "." + b) == Some(a + "." + b)
  {
    ReadsNumber(a);
    ReadsNumber(b);
    SplitTwo(a, b);
  }

  lemma PatchedVersion(a: string, b: string, c: string)
    requires AllDigits(a) && AllDigits(b) && AllDigits(c)
    ensures ParseVersion(a + "." + b + "." + c) == Ok(Version(DigitsValue(a), DigitsValue(b), true))
    ensures MinorLabel(a + "." + b + "." + c) == Some(a + "." + b)
  {
    ReadsNumber(a);
    ReadsNumber(b);
    ReadsNumber(c);
    SplitThree(a, b, c);
  }

  lemma OneMoreDigit(s: string, c: char)
    requires s == [] || AllDigits(s)
    requires IsDigit(c)
    ensures AllDigits(s + [c]) && DigitsValue(s + [c]) == 10 * DigitsValue(s) + DigitValue(c)
  {
    assert (s + [c])[..|s|] == s;
  }

  lemma SomeDigits()
    ensures AllDigits("1") && DigitsValue("1") == 1 && AllDigits("2")
    ensures AllDigits("35") && DigitsValue("35") == 35
    ensures AllDigits("37") && DigitsValue("37") == 37
    ensures AllDigits("036") && DigitsValue("036") == 36
  {
    OneMoreDigit("", '1');
    OneMoreDigit("", '2');
    OneMoreDigit("", '3');
    OneMoreDigit("3", '5');
    OneMoreDigit("3", '7');
    OneMoreDigit("", '0');
    OneMoreDigit("0", '3');
    OneMoreDigit("03", '6');
  }

  lemma LabelOf36()
    ensures Label(1, 36) == "1.36"
  {
    assert PrintNat(3) == "3" && PrintNat(1) == "1";
    assert PrintNat(36) == PrintNat(3) + [DigitChar(6)];
  }

  lemma Ordinary()
    ensures ParseVersion("1.35") == Ok(Version(1, 35, false)) && ParseVersion("1.37") == Ok(Version(1, 37, false))
  {
    SomeDigits();
    PlainVersion("1", "35");
    PlainVersion("1", "37");
    assert "1" + "." + "35" == "1.35" && "1" + "." + "37" == "1.37";
  }

  lemma OddPlain()
    ensures ParseVersion("1.036") == Ok(Version(1, 36, false)) && MinorLabel("1.036") == Some("1.036")
  {
    SomeDigits();
    PlainVersion("1", "036");
    assert "1" + "." + "036" == "1.036";
  }

  lemma OddPatched()
    ensures ParseVersion("1.036.2") == Ok(Version(1, 36, true)) && MinorLabel("1.036.2") == Some("1.036")
  {
    SomeDigits();
    PatchedVersion("1", "036", "2");
    assert "1" + "." + "036" == "1.036" && "1.036" + "." + "2" == "1.036.2";
  }

  lemma OddLabel()
    ensures Label(1, 36) != "1.036"
  {
    LabelOf36();
    assert |"1.36"| == 4 && |"1.036"| == 5;
  }

  /** Two targets with an odd spelling, and ordinary versions around them. */
  lemma OddTargets()
    ensures ParseVersion("1.35") == Ok(Version(1, 35, false)) && ParseVersion("1.37") == Ok(Version(1, 37, false))
    ensures ParseVersion("1.036") == Ok(Version(1, 36, false)) && MinorLabel("1.036") == Some("1.036")
    ensures ParseVersion("1.036.2") == Ok(Version(1, 36, true)) && MinorLabel("1.036.2") == Some("1.036")
    ensures Label(1, 36) != "1.036"
  {
    Ordinary();
    OddPlain();
    OddPatched();
    OddLabel();
  }

  /** The odd side of every claim about canonical targets is inhabited: `1.036.2` is accepted,
      from a minor below and with an ordinary target beyond it, and it is not canonical. */
  lemma OddTargetAccepted()
    ensures UpgradePath("1.35", "1.036").Ok? && UpgradePath("1.35", "1.036.2").Ok? && UpgradePath("1.35", "1.37").Ok?
    ensures |UpgradePath("1.35", "1.036.2").value| < |UpgradePath("1.35", "1.37").value|
    ensures !CanonicalTarget("1.036.2")
  {
    OddTargets();
  }
}
