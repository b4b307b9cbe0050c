/** Go's `%q` printing of a string and Python's `json.loads` of a string literal, the two ends
    of the field format of kubectl-ai's replies. */
module GoQuote {
  import opened Text
  import opened Wrappers

  // ---------------------------------------------------------------- Go's %q

  /** What is known of Go's `strconv.IsPrint`: which ASCII characters it accepts. */
  ghost predicate GoPrintable(printable: char -> bool) {
    forall c :: c as int < 0x80 ==> (printable(c) <==> 0x20 <= c as int < 0x7F)
  }

  function HexDigit(d: int): char
    requires 0 <= d < 16
  {
    if d < 10 then ('0' as int + d) as char else ('a' as int + d - 10) as char
  }

  /** The `n` low hexadecimal digits of `v`, in lower case. */
  function Hex(v: int, n: nat): (s: string)
    requires v >= 0
    ensures |s| == n && forall i :: 0 <= i < n ==> IsHexLower(s[i])
  {
    if n == 0 then "" else Hex(v / 16, n - 1) + [HexDigit(v % 16)]
  }

  predicate IsHexLower(c: char) {
    '0' <= c <= '9' || 'a' <= c <= 'f'
  }

  /** The letter of a two-character escape both languages know. */
  function ShortEscape(c: char): Option<char> {
    if c == '"' then Some('"')
    else if c == '\\' then Some('\\')
    else if c as int == 8 then Some('b')
    else if c as int == 12 then Some('f')
    else if c == '\n' then Some('n')
    else if c == '\r' then Some('r')
    else if c == '\t' then Some('t')
    else None
  }

  /** One character as `%q` prints it between the quotes. */
  function EscapeChar(printable: char -> bool, c: char): string {
    var n := c as int;
    if ShortEscape(c).Some? then ['\\', ShortEscape(c).value]
    else if printable(c) then [c]
    else if n == 7 then "\\a"
    else if n == 11 then "\\v"
    else if n < 0x20 || n == 0x7F then "\\x" + Hex(n, 2)
    else if n < 0x10000 then "\\u" + Hex(n, 4)
    else "\\U" + Hex(n, 8)
  }

  /** A text spelled character by character. */
  function Spell(code: char -> string, s: string): string {
    if s == [] then [] else code(s[0]) + Spell(code, s[1..])
  }

  function Escaper(printable: char -> bool): char -> string {
    c => EscapeChar(printable, c)
  }

  function Escape(printable: char -> bool, s: string): string {
    Spell(Escaper(printable), s)
  }

  // ---------------------------------------------------------------- Python's json.loads

  function HexValue(c: char): Option<int> {
    if '0' <= c <= '9' then Some(c as int - '0' as int)
    else if 'a' <= c <= 'f' then Some(c as int - 'a' as int + 10)
    else if 'A' <= c <= 'F' then Some(c as int - 'A' as int + 10)
    else None
  }

  function HexNumber(s: string): (r: Option<int>)
    ensures r.Some? ==> r.value >= 0
  {
    if s == [] then Some(0)
    else
      match (HexNumber(s[..|s|-1]), HexValue(s[|s|-1]))
      case (Some(h), Some(d)) => Some(16 * h + d)
      case _ => None
  }

  /** The number of a `\uXXXX` escape at the head of `s`. */
  function UnicodeEscape(s: string): Option<int> {
    if |s| >= 6 && s[0] == '\\' && s[1] == 'u' then HexNumber(s[2..6]) else None
  }

  function ShortMeaning(c: char): Option<char> {
    if c == '"' || c == '\\' || c == '/' then Some(c)
    else if c == 'b' then Some(8 as char)
    else if c == 'f' then Some(12 as char)
    else if c == 'n' then Some('\n')
    else if c == 'r' then Some('\r')
    else if c == 't' then Some('\t')
    else None
  }

  function Cons(c: char, rest: Option<string>): Option<string> {
    if rest.Some? then Some([c] + rest.value) else None
  }

  predicate IsScalar(n: int) {
    0 <= n < 0xD800 || 0xE000 <= n < 0x11_0000
  }

  /** `json.loads('"' + s + '"')`; None stands for the JSONDecodeError. A raw quote would end
      the literal early and a raw control character is refused. An escaped surrogate that is
      not half of a pair has no character to stand for it here and counts as refused too. */
  function Unescape(s: string): Option<string>
    decreases |s|
  {
    if s == [] then Some([])
    else if s[0] == '"' || s[0] as int < 0x20 then None
    else if s[0] != '\\' then Cons(s[0], Unescape(s[1..]))
    else if |s| < 2 then None
    else if s[1] != 'u' then
      if ShortMeaning(s[1]).None? then None else Cons(ShortMeaning(s[1]).value, Unescape(s[2..]))
    else
      match UnicodeEscape(s)
      case None => None
      case Some(n) =>
        if IsScalar(n) then Cons(n as char, Unescape(s[6..]))
        else
          match UnicodeEscape(s[6..])
          case None => None
          case Some(m) =>
            if 0xD800 <= n < 0xDC00 && 0xDC00 <= m < 0xE000
            then Cons((0x10000 + (n - 0xD800) * 0x400 + (m - 0xDC00)) as char, Unescape(s[12..]))
            else None
  }

  // ---------------------------------------------------------------- where they agree

  /** Characters whose `%q` form is also a JSON form (section 7 of RFC 8259): not `\a`, `\v`,
      `\xNN` or `\UNNNNNNNN`. */
  predicate Shared(printable: char -> bool, c: char) {
    ShortEscape(c).Some? || printable(c) || 0x80 <= c as int < 0x10000
  }

  predicate AllShared(printable: char -> bool, s: string) {
    forall i :: 0 <= i < |s| ==> Shared(printable, s[i])
  }

  lemma HexDigitValue(d: int)
    requires 0 <= d < 16
    ensures HexValue(HexDigit(d)) == Some(d)
  {
  }

  function Pow16(n: nat): nat {
    if n == 0 then 1 else 16 * Pow16(n - 1)
  }

  lemma {:induction false} HexReadsBack(v: int, n: nat)
    requires 0 <= v < Pow16(n)
    ensures HexNumber(Hex(v, n)) == Some(v)
  {
    if n == 0 {
    } else {
      HexReadsBack(v / 16, n - 1);
      HexDigitValue(v % 16);
      var s := Hex(v, n);
      assert s[..|s|-1] == Hex(v / 16, n - 1);
    }
  }

  /** One printed character is read as that character, or refused. */
  lemma UnescapeOne(printable: char -> bool, c: char, rest: string)
    requires GoPrintable(printable)
    ensures Unescape(EscapeChar(printable, c) + rest) ==
      if Shared(printable, c) then Cons(c, Unescape(rest)) else None
  {
    var t := EscapeChar(printable, c);
    var s := t + rest;
    assert s[|t|..] == rest;
    if ShortEscape(c).Some? || printable(c) {
    } else if 0x80 <= c as int < 0x10000 {
      assert Pow16(4) == 0x10000;
      HexReadsBack(c as int, 4);
      assert s[2..6] == Hex(c as int, 4);
    }
  }

  /** Reading back what Go printed gives the text exactly when all its characters are shared;
      any other character makes the reader refuse. */
  lemma {:induction false} UnescapeEscape(printable: char -> bool, s: string)
    requires GoPrintable(printable)
    ensures Unescape(Escape(printable, s)) == if AllShared(printable, s) then Some(s) else None
    decreases |s|
  {
    if s == [] {
    } else {
      UnescapeEscape(printable, s[1..]);
      UnescapeOne(printable, s[0], Escape(printable, s[1..]));
      assert forall i :: 0 < i < |s| ==> s[i] == s[1..][i - 1];
      assert s == [s[0]] + s[1..];
    }
  }

  /** A hexadecimal escape of JSON. */
  function JsonEscape(unit: int): string
    requires 0 <= unit < 0x10000
  {
    "\\u" + Hex(unit, 4)
  }

  lemma EscapeRead(unit: int, rest: string)
    requires 0 <= unit < 0x10000
    ensures |JsonEscape(unit)| == 6 && UnicodeEscape(JsonEscape(unit) + rest) == Some(unit)
    ensures (JsonEscape(unit) + rest)[0] == '\\' && (JsonEscape(unit) + rest)[1] == 'u' && (JsonEscape(unit) + rest)[6..] == rest
  {
    assert Pow16(4) == 0x10000;
    HexReadsBack(unit, 4);
    assert (JsonEscape(unit) + rest)[2..6] == Hex(unit, 4);
  }

  /** JSON's own escapes are read as RFC 8259, section 7, has it: every character of the basic
      plane by its number, every other by its pair of surrogates, and a lone surrogate by none. */
  lemma JsonReads(c: char, rest: string)
    ensures var n := c as int;
      if n < 0x10000 then Unescape(JsonEscape(n) + rest) == Cons(c, Unescape(rest))
      else
        var high, low := 0xD800 + (n - 0x10000) / 0x400, 0xDC00 + (n - 0x10000) % 0x400;
        Unescape(JsonEscape(high) + (JsonEscape(low) + rest)) == Cons(c, Unescape(rest))
        && Unescape(JsonEscape(high)).None? && Unescape(JsonEscape(low)).None?
  {
    var n := c as int;
    if n < 0x10000 {
      EscapeRead(n, rest);
    } else {
      var high, low := 0xD800 + (n - 0x10000) / 0x400, 0xDC00 + (n - 0x10000) % 0x400;
      EscapeRead(high, JsonEscape(low) + rest);
      EscapeRead(low, rest);
      PairRead(high, low, rest, c);
      LoneRefused(high);
      LoneRefused(low);
    }
  }

  /** And JSON's short escapes stand for the characters of the same section, any other for none. */
  lemma JsonShortReads(c: char, rest: string)
    requires c != 'u'
    ensures Unescape(['\\', c] + rest) ==
      if c in "\"\\/" then Cons(c, Unescape(rest))
      else if c == 'b' then Cons(8 as char, Unescape(rest))
      else if c == 'f' then Cons(12 as char, Unescape(rest))
      else if c == 'n' then Cons('\n', Unescape(rest))
      else if c == 'r' then Cons('\r', Unescape(rest))
      else if c == 't' then Cons('\t', Unescape(rest))
      else None
  {
    var s := ['\\', c] + rest;
    assert s[0] == '\\' && s[1] == c && s[2..] == rest;
  }

  predicate IsHex(c: char) {
    '0' <= c <= '9' || 'a' <= c <= 'f' || 'A' <= c <= 'F'
  }

  lemma {:induction false} HexNumberIff(s: string)
    ensures HexNumber(s).Some? <==> forall k :: 0 <= k < |s| ==> IsHex(s[k])
  {
    if s == [] {
    } else {
      HexNumberIff(s[..|s|-1]);
      assert forall k :: 0 <= k < |s| - 1 ==> s[..|s|-1][k] == s[k];
    }
  }

  /** Every other character stands for itself, except that a quote or a control character is
      refused, as is a backslash at the end or a hexadecimal escape without its four digits. */
  lemma JsonRefuses(c: char, rest: string)
    ensures c == '"' || c as int < 0x20 ==> Unescape([c] + rest).None?
    ensures c as int >= 0x20 && c != '"' && c != '\\' ==> Unescape([c] + rest) == Cons(c, Unescape(rest))
    ensures Unescape("\\").None?
    ensures (|rest| < 4 || exists k :: 0 <= k < 4 && !IsHex(rest[k])) ==> Unescape("\\u" + rest).None?
  {
    assert ([c] + rest)[1..] == rest;
    var s := "\\u" + rest;
    if |rest| >= 4 {
      HexNumberIff(s[2..6]);
      assert forall k :: 0 <= k < 4 ==> s[2..6][k] == rest[k];
    }
  }

  lemma PairRead(high: int, low: int, rest: string, c: char)
    requires 0xD800 <= high < 0xDC00 && 0xDC00 <= low < 0xE000
    requires c as int == 0x10000 + (high - 0xD800) * 0x400 + (low - 0xDC00)
    ensures Unescape(JsonEscape(high) + (JsonEscape(low) + rest)) == Cons(c, Unescape(rest))
  {
    var back := JsonEscape(low) + rest;
    var s := JsonEscape(high) + back;
    EscapeRead(high, back);
    EscapeRead(low, rest);
    assert s[12..] == s[6..][6..];
  }

  lemma LoneRefused(unit: int)
    requires 0xD800 <= unit < 0xE000
    ensures Unescape(JsonEscape(unit)).None?
  {
    EscapeRead(unit, "");
    assert JsonEscape(unit) + "" == JsonEscape(unit);
  }

  // ---------------------------------------------------------------- no boundary inside a field

  /** No raw control character, and no quote but after a backslash. */
  ghost predicate Sealed(t: string) {
    forall k :: 0 <= k < |t| ==> SealedAt(t, k)
  }

  ghost predicate SealedAt(t: string, k: int)
    requires 0 <= k < |t|
  {
    t[k] as int >= 0x20 && (t[k] == '"' ==> k > 0 && t[k-1] == '\\')
  }

  /** What the proofs below use of `%q`: a character stands for itself, or is spelled by an
      escape of known shape; either way no boundary appears. */
  ghost predicate WellSpelled(code: char -> string, c: char) {
    && Sealed(code(c)) && |code(c)| >= 1
    && (|code(c)| == 1 ==> code(c) == [c])
    && (|code(c)| > 1 ==> EndsAnEscape(code(c)[|code(c)|-1]))
    && (|code(c)| > 1 ==> IsHexLower(code(c)[|code(c)|-2]) || code(c)[|code(c)|-2] == '\\')
    && (0x20 <= c as int < 0x7F && c !in "\"\\" ==> code(c) == [c])
  }

  ghost predicate IsCode(code: char -> string) {
    forall c :: WellSpelled(code, c)
  }

  lemma EscaperIsCode(printable: char -> bool)
    requires GoPrintable(printable)
    ensures IsCode(Escaper(printable))
  {
    forall c
      ensures WellSpelled(Escaper(printable), c)
    {
      EscapeCharShape(printable, c);
    }
  }

  lemma EscapeCharShape(printable: char -> bool, c: char)
    requires GoPrintable(printable)
    ensures WellSpelled(Escaper(printable), c)
  {
    var t := EscapeChar(printable, c);
    if |t| > 2 {
      var n := |t| - 2;
      assert t[2..] == Hex(c as int, n);
      assert t[|t|-1] == t[2..][n-1] && t[|t|-2] == t[2..][n-2];
    }
  }

  lemma {:induction false} SpellSealed(code: char -> string, s: string)
    requires IsCode(code)
    ensures Sealed(Spell(code, s))
  {
    if s == [] {
    } else {
      SpellSealed(code, s[1..]);
      assert WellSpelled(code, s[0]);
      SealedConcat(code(s[0]), Spell(code, s[1..]));
    }
  }

  lemma SealedConcat(a: string, b: string)
    requires Sealed(a) && Sealed(b)
    ensures Sealed(a + b)
  {
    forall k | 0 <= k < |a + b|
      ensures SealedAt(a + b, k)
    {
      if k < |a| {
        assert SealedAt(a, k);
      } else {
        assert SealedAt(b, k - |a|);
      }
    }
  }

  // ---------------------------------------------------------------- how a field can end

  lemma {:induction false} SpellConcat(code: char -> string, a: string, b: string)
    ensures Spell(code, a + b) == Spell(code, a) + Spell(code, b)
  {
    if a == [] {
      assert a + b == b;
    } else {
      SpellConcat(code, a[1..], b);
      HeadOf(a, b);
      Regroup(code(a[0]), Spell(code, a[1..]), Spell(code, b));
    }
  }

  lemma HeadOf(a: string, b: string)
    requires a != []
    ensures (a + b)[0] == a[0] && (a + b)[1..] == a[1..] + b
  {
  }

  lemma Regroup(a: string, b: string, c: string)
    ensures a + (b + c) == (a + b) + c
  {
  }

  lemma SpellSnoc(code: char -> string, s: string)
    requires s != []
    ensures Spell(code, s) == Spell(code, s[..|s|-1]) + code(s[|s|-1])
  {
    SpellConcat(code, s[..|s|-1], s[|s|-1..]);
    assert s == s[..|s|-1] + s[|s|-1..];
    SpellOne(code, s[|s|-1..]);
  }

  lemma SpellOne(code: char -> string, s: string)
    requires |s| == 1
    ensures Spell(code, s) == code(s[0])
  {
    assert s[1..] == [];
  }

  predicate EndsAnEscape(c: char) {
    IsHexLower(c) || c in "\"\\abfnrtv"
  }

  /** Position `i` of `w` cannot be the end of an escape of a printed text that ends in `w`. */
  predicate SolidAt(w: string, i: int)
    requires 0 <= i < |w|
  {
    if i == 0 then !EndsAnEscape(w[0])
    else !EndsAnEscape(w[i]) || !(IsHexLower(w[i-1]) || w[i-1] == '\\')
  }

  predicate Solid(w: string) {
    forall i :: 0 <= i < |w| ==> SolidAt(w, i) && 0x20 <= w[i] as int < 0x7F && w[i] !in "\"\\"
  }

  lemma LastTwo(code: char -> string, s: string)
    requires s != [] && |code(s[|s|-1])| >= 1
    ensures var t, e := Spell(code, s), code(s[|s|-1]);
      && |t| >= |e| && t[|t|-1] == e[|e|-1]
      && (|e| > 1 ==> t[|t|-2] == e[|e|-2])
  {
    SpellSnoc(code, s);
  }

  /** The last character of a spelled text is a character of the text itself, unless it ends
      an escape, and then a backslash or a hexadecimal digit stands before it. */
  lemma LastIsLiteral(code: char -> string, s: string, c: char)
    requires IsCode(code)
    requires Spell(code, s) != [] && Spell(code, s)[|Spell(code, s)|-1] == c
    requires !EndsAnEscape(c) || (|Spell(code, s)| > 1 && !IsHexLower(Spell(code, s)[|Spell(code, s)|-2])
               && Spell(code, s)[|Spell(code, s)|-2] != '\\')
    ensures s != [] && s[|s|-1] == c && code(c) == [c]
  {
    assert WellSpelled(code, s[|s|-1]);
    LastTwo(code, s);
  }

  /** A spelled text ends in a solid word exactly when the text itself does. */
  lemma {:induction false} EndsAlike(code: char -> string, s: string, w: string)
    requires IsCode(code) && Solid(w)
    ensures EndsWith(Spell(code, s), w) <==> EndsWith(s, w)
    decreases |w|
  {
    if w == [] {
    } else {
      var n, c := |w| - 1, w[|w|-1];
      var t := Spell(code, s);
      SolidFront(w);
      if EndsWith(t, w) {
        LastOfWord(t, w);
        LastIsLiteral(code, s, c);
      }
      if s != [] && s[|s|-1] == c {
        assert WellSpelled(code, c) && code(c) == [c];
        SpellSnoc(code, s);
        assert t[..|t|-1] == Spell(code, s[..|s|-1]);
        EndsAlike(code, s[..|s|-1], w[..n]);
        EndsSnoc(s, w);
        EndsSnoc(t, w);
      } else {
        assert !EndsWith(s, w) by {
          if EndsWith(s, w) {
            LastOfWord(s, w);
          }
        }
      }
    }
  }

  lemma SolidFront(w: string)
    requires Solid(w) && w != []
    ensures Solid(w[..|w|-1])
    ensures !EndsAnEscape(w[|w|-1]) || (|w| > 1 && !IsHexLower(w[|w|-2]) && w[|w|-2] != '\\')
    ensures 0x20 <= w[|w|-1] as int < 0x7F && w[|w|-1] !in "\"\\"
  {
    var front := w[..|w|-1];
    assert SolidAt(w, |w| - 1);
    forall i | 0 <= i < |front|
      ensures SolidAt(front, i) && 0x20 <= front[i] as int < 0x7F && front[i] !in "\"\\"
    {
      assert SolidAt(w, i);
    }
  }

  lemma LastOfWord(t: string, w: string)
    requires EndsWith(t, w) && w != []
    ensures t != [] && t[|t|-1] == w[|w|-1]
    ensures |w| > 1 ==> |t| > 1 && t[|t|-2] == w[|w|-2]
  {
    var k := |t| - |w|;
    assert t[k..][|w|-1] == t[|t|-1];
    assert |w| > 1 ==> t[k..][|w|-2] == t[|t|-2];
  }

  lemma EndsSnoc(s: string, w: string)
    requires s != [] && w != [] && s[|s|-1] == w[|w|-1]
    ensures EndsWith(s, w) <==> EndsWith(s[..|s|-1], w[..|w|-1])
  {
    var n, m := |s| - 1, |w| - 1;
    if |w| <= |s| {
      assert s[n - m..] == s[..n][n - m..] + [s[n]];
      assert w == w[..m] + [w[m]];
      if s[n - m..] == w {
        assert s[..n][n - m..] == s[n - m..][..m];
      }
    }
  }
}
