/** Python string operations the analysis rests on: `str.split`, `str.strip`,
    `str.lstrip`, `str.startswith`, and the decimal round trip of `int(...)` and
    f-string interpolation of an integer. */
module Text {
  import opened Wrappers

  // ---------------------------------------------------------------- white space

  /** `str.isspace` for one character; `str.strip` and the regex class `\s` use the same set. */
  predicate IsSpace(c: char) {
    var n := c as int;
    || 0x09 <= n <= 0x0D || 0x1C <= n <= 0x20 || n == 0x85 || n == 0xA0 || n == 0x1680
    || 0x2000 <= n <= 0x200A || n == 0x2028 || n == 0x2029 || n == 0x202F || n == 0x205F || n == 0x3000
  }

  predicate Blank(s: string) {
    forall i :: 0 <= i < |s| ==> IsSpace(s[i])
  }

  function StripLeft(s: string): string {
    if s != [] && IsSpace(s[0]) then StripLeft(s[1..]) else s
  }

  function StripRight(s: string): string {
    if s != [] && IsSpace(s[|s|-1]) then StripRight(s[..|s|-1]) else s
  }

  function Strip(s: string): string {
    StripRight(StripLeft(s))
  }

  /** The characters of `s` that are not white space, in order. */
  function NonSpace(s: string): string {
    if s == [] then []
    else NonSpace(s[..|s|-1]) + if IsSpace(s[|s|-1]) then [] else [s[|s|-1]]
  }

  lemma {:induction false} NonSpaceConcat(a: string, b: string)
    ensures NonSpace(a + b) == NonSpace(a) + NonSpace(b)
  {
    if b == [] {
      assert a + b == a;
    } else {
      NonSpaceConcat(a, b[..|b|-1]);
      assert (a + b)[..|a + b|-1] == a + b[..|b|-1];
    }
  }

  lemma {:induction false} StripLeftKeeps(s: string)
    ensures NonSpace(StripLeft(s)) == NonSpace(s)
    ensures StripLeft(s) != [] ==> !IsSpace(StripLeft(s)[0])
  {
    if s != [] && IsSpace(s[0]) {
      StripLeftKeeps(s[1..]);
      NonSpaceConcat(s[..1], s[1..]);
      assert s == s[..1] + s[1..];
      assert s[..1][..0] == [];
    }
  }

  lemma {:induction false} StripRightKeeps(s: string)
    ensures NonSpace(StripRight(s)) == NonSpace(s)
    ensures StripRight(s) <= s
    ensures StripRight(s) != [] ==> !IsSpace(StripRight(s)[|StripRight(s)|-1])
  {
    if s != [] && IsSpace(s[|s|-1]) {
      StripRightKeeps(s[..|s|-1]);
    }
  }

  /** Stripping loses white space only, and what is left neither starts nor ends with any. */
  lemma StripKeeps(s: string)
    ensures NonSpace(Strip(s)) == NonSpace(s)
    ensures Strip(s) != [] ==> !IsSpace(Strip(s)[0]) && !IsSpace(Strip(s)[|Strip(s)|-1])
  {
    StripLeftKeeps(s);
    StripRightKeeps(StripLeft(s));
  }

  lemma {:induction false} NonSpaceEmpty(s: string)
    ensures NonSpace(s) == [] <==> Blank(s)
  {
    if s == [] {
    } else {
      NonSpaceEmpty(s[..|s|-1]);
      assert forall i :: 0 <= i < |s|-1 ==> s[..|s|-1][i] == s[i];
    }
  }

  /** `not text.strip()` is the same as: every character is white space. */
  lemma StripEmpty(s: string)
    ensures Strip(s) == [] <==> Blank(s)
  {
    StripKeeps(s);
    NonSpaceEmpty(s);
    NonSpaceEmpty(Strip(s));
  }

  lemma StripIdentity(s: string)
    requires s != [] && !IsSpace(s[0]) && !IsSpace(s[|s|-1])
    ensures Strip(s) == s
  {
  }

  // ---------------------------------------------------------------- split

  function IndexOf(s: string, c: char): (i: nat)
    ensures i <= |s| && c !in s[..i]
    ensures i < |s| ==> s[i] == c
  {
    if s == [] || s[0] == c then 0
    else
      var j := IndexOf(s[1..], c);
      assert s[..j + 1] == [s[0]] + s[1..][..j];
      j + 1
  }

  /** `s.split(c)`. */
  function Split(s: string, c: char): (parts: seq<string>)
    ensures |parts| >= 1
    ensures forall i :: 0 <= i < |parts| ==> c !in parts[i]
    decreases |s|
  {
    var i := IndexOf(s, c);
    if i == |s| then [s[..i]] else [s[..i]] + Split(s[i+1..], c)
  }

  lemma {:induction false} IndexOfFirst(a: string, c: char, b: string)
    requires c !in a
    ensures IndexOf(a + [c] + b, c) == |a|
  {
    if a == [] {
    } else {
      IndexOfFirst(a[1..], c, b);
      assert (a + [c] + b)[1..] == a[1..] + [c] + b;
    }
  }

  /** Splitting takes off the text before the first separator. */
  lemma SplitCons(a: string, c: char, b: string)
    requires c !in a
    ensures Split(a + [c] + b, c) == [a] + Split(b, c)
  {
    IndexOfFirst(a, c, b);
    var s := a + [c] + b;
    assert s[..|a|] == a && s[|a|+1..] == b;
  }

  /** And what comes after the last separator is the last part. */
  lemma {:induction false} SplitLast(a: string, c: char, b: string)
    requires c !in b
    ensures Split(a + [c] + b, c) == Split(a, c) + [b]
    decreases |a|
  {
    var i := IndexOf(a, c);
    if i == |a| {
      assert a[..i] == a;
      SplitCons(a, c, b);
      SplitOne(b, c);
    } else {
      var head, rest := a[..i], a[i + 1..];
      assert a == head + [c] + rest;
      assert a + [c] + b == head + [c] + (rest + [c] + b);
      SplitCons(head, c, rest + [c] + b);
      SplitLast(rest, c, b);
      SplitCons(head, c, rest);
      assert [head] + (Split(rest, c) + [b]) == [head] + Split(rest, c) + [b];
    }
  }

  lemma SplitOne(a: string, c: char)
    requires c !in a
    ensures Split(a, c) == [a]
  {
    assert IndexOf(a, c) == |a|;
    assert a[..|a|] == a;
  }

  /** Drops leading copies of `c`, as `s.lstrip("c")`. */
  function LStrip(s: string, c: char): string {
    if s != [] && s[0] == c then LStrip(s[1..], c) else s
  }

  /** However many there are, and nothing else. */
  lemma {:induction false} LStripDrops(prefix: string, c: char, rest: string)
    requires (forall i :: 0 <= i < |prefix| ==> prefix[i] == c) && (rest == [] || rest[0] != c)
    ensures LStrip(prefix + rest, c) == rest
  {
    if prefix == [] {
      assert prefix + rest == rest;
    } else {
      assert (prefix + rest)[1..] == prefix[1..] + rest;
      LStripDrops(prefix[1..], c, rest);
    }
  }

  predicate EndsWith(s: string, t: string) {
    |t| <= |s| && s[|s|-|t|..] == t
  }

  // ---------------------------------------------------------------- decimals

  predicate IsDigit(c: char) {
    '0' <= c <= '9'
  }

  function DigitValue(c: char): (d: nat)
    requires IsDigit(c)
    ensures d < 10
  {
    c as int - '0' as int
  }

  function DigitChar(d: nat): (c: char)
    requires d < 10
    ensures IsDigit(c) && DigitValue(c) == d
  {
    ('0' as int + d) as char
  }

  function PrintNat(n: nat): (s: string)
    ensures |s| >= 1 && forall i :: 0 <= i < |s| ==> IsDigit(s[i])
  {
    if n < 10 then [DigitChar(n)] else PrintNat(n / 10) + [DigitChar(n % 10)]
  }

  /** The text an f-string gives for an integer. */
  function PrintInt(n: int): string {
    if n < 0 then "-" + PrintNat(-n) else PrintNat(n)
  }

  /** The digits of `int(text)`: at least one digit, single underscores between digits. */
  function ParseNat(s: string): Option<nat>
    decreases |s|
  {
    if s == [] || !IsDigit(s[|s|-1]) then None
    else if |s| == 1 then Some(DigitValue(s[0]))
    else
      var p := s[..|s|-1];
      var q := if p[|p|-1] == '_' then p[..|p|-1] else p;
      match ParseNat(q)
      case None => None
      case Some(v) => Some(10 * v + DigitValue(s[|s|-1]))
  }

  /** `int(text)`; None stands for the ValueError. */
  function ParseInt(s: string): Option<int> {
    var t := Strip(s);
    if t != [] && (t[0] == '-' || t[0] == '+') then
      match ParseNat(t[1..])
      case None => None
      case Some(v) => var n: int := v; Some(if t[0] == '-' then -n else n)
    else
      match ParseNat(t)
      case None => None
      case Some(v) => Some(v)
  }

  lemma {:induction false} ParsePrintNat(n: nat)
    ensures ParseNat(PrintNat(n)) == Some(n)
  {
    if n >= 10 {
      ParsePrintNat(n / 10);
      var s := PrintNat(n);
      assert s[..|s|-1] == PrintNat(n / 10);
    }
  }

  /** Reading a printed integer gives it back. */
  lemma ParsePrintInt(n: int)
    ensures ParseInt(PrintInt(n)) == Some(n)
    ensures '.' !in PrintInt(n)
  {
    var s := PrintInt(n);
    ParsePrintNat(if n < 0 then -n else n);
    StripIdentity(s);
    if n < 0 {
      assert s[1..] == PrintNat(-n);
    }
  }

  lemma {:induction false} StripPads(front: string, t: string, back: string)
    requires Blank(front) && Blank(back) && t != [] && !IsSpace(t[0]) && !IsSpace(t[|t|-1])
    ensures Strip(front + t + back) == t
    decreases |front| + |back|
  {
    var s := front + t + back;
    if front != [] {
      assert s[0] == front[0] && s[1..] == front[1..] + t + back;
      StripPads(front[1..], t, back);
    } else if back != [] {
      assert s[0] == t[0] && StripLeft(s) == s;
      assert s[|s|-1] == back[|back|-1] && s[..|s|-1] == [] + t + back[..|back|-1];
      StripPads(front, t, back[..|back|-1]);
      assert ([] + t + back[..|back|-1])[0] == t[0];
    } else {
      assert s == t;
    }
  }

  /** What `int` reads: digits, perhaps after one sign, perhaps with white space around. */
  lemma ParseIntReads(front: string, digits: string, back: string, n: int)
    requires Blank(front) && Blank(back) && ParseNat(digits).Some? && ParseNat(digits).value == n
    ensures ParseInt(front + digits + back) == Some(n)
    ensures ParseInt(front + ("+" + digits) + back) == Some(n)
    ensures ParseInt(front + ("-" + digits) + back) == Some(-n)
  {
    ParseNatHead(digits);
    StripPads(front, digits, back);
    StripPads(front, "+" + digits, back);
    StripPads(front, "-" + digits, back);
    assert ("+" + digits)[1..] == digits && ("-" + digits)[1..] == digits;
  }

  lemma LastDigit(front: string, rest: string, c: char)
    requires front != [] && IsDigit(c)
    requires rest == if front[|front|-1] == '_' then front[..|front|-1] else front
    ensures ParseNat(rest).None? ==> ParseNat(front + [c]).None?
    ensures ParseNat(rest).Some? ==> ParseNat(front + [c]) == Some(10 * ParseNat(rest).value + DigitValue(c))
  {
    var s := front + [c];
    assert s[..|s|-1] == front && s[|s|-1] == c;
  }

  lemma EndsInUnderscore(s: string)
    requires s != [] && s[|s|-1] == '_'
    ensures ParseNat(s).None?
  {
  }

  /** A single underscore may stand between two digits, and nowhere else: not twice, not at the
      start, not at the end. */
  lemma UnderscoreReads(digits: string, once: string, twice: string, c: char)
    requires ParseNat(digits).Some? && IsDigit(c) && once == digits + "_" && twice == once + "_"
    ensures ParseNat(once + [c]) == ParseNat(digits + [c]) == Some(10 * ParseNat(digits).value + DigitValue(c))
    ensures ParseNat(twice + [c]).None? && ParseNat("_" + [c]).None? && ParseNat(once).None?
  {
    assert digits != [] && digits[|digits|-1] != '_' && once[..|digits|] == digits && twice[..|once|] == once;
    LastDigit(digits, digits, c);
    LastDigit(once, digits, c);
    LastDigit(twice, once, c);
    LastDigit("_", "", c);
    EndsInUnderscore(once);
  }

  lemma {:induction false} ParseNatHead(s: string)
    requires ParseNat(s).Some?
    ensures s != [] && IsDigit(s[0])
    decreases |s|
  {
    if |s| > 1 {
      var p := s[..|s|-1];
      ParseNatHead(if p[|p|-1] == '_' then p[..|p|-1] else p);
    }
  }

  /** A text that `int` accepts is not empty and does not start with `v`. */
  lemma ParseIntHead(s: string)
    requires ParseInt(s).Some?
    ensures s != [] && s[0] != 'v'
  {
    var t := Strip(s);
    if t != [] && (t[0] == '-' || t[0] == '+') {
      StripHead(s);
    } else {
      ParseNatHead(t);
      StripHead(s);
    }
  }

  /** Stripping keeps the first character if it is not white space. */
  lemma StripHead(s: string)
    ensures Strip(s) != [] ==> s != []
    ensures Strip(s) != [] && !IsSpace(s[0]) ==> Strip(s)[0] == s[0]
  {
    StripRightKeeps(StripLeft(s));
    StripLeftKeeps(s);
  }
}
