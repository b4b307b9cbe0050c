/** The reply of kubectl-ai's `kubectl` tool: how it is printed, how `_parse_kubectl_tool_result`
    reads it with two lazy regular expressions, and when the two agree. */
module KubectlReply {
  import opened GoQuote
  import opened Text
  import opened Wrappers

  // ---------------------------------------------------------------- the two regular expressions

  predicate At(text: string, word: string, i: int) {
    0 <= i && i + |word| <= |text| && text[i..i + |word|] == word
  }

  /** The first occurrence of `word` at or after `from`. */
  function Find(text: string, word: string, from: nat): (r: Option<nat>)
    ensures r.Some? ==> from <= r.value && At(text, word, r.value) && forall j :: from <= j < r.value ==> !At(text, word, j)
    ensures r.None? ==> forall j :: from <= j ==> !At(text, word, j)
    decreases |text| - from
  {
    if from > |text| then None
    else if At(text, word, from) then Some(from)
    else Find(text, word, from + 1)
  }

  /** `open(.*?)close` matches at `i`, with the group ending at `j`. */
  ghost predicate Matches(text: string, open: string, close: string, i: int, j: int) {
    At(text, open, i) && At(text, close, j) && i + |open| <= j
  }

  /** The match `re.search` returns: leftmost, and lazy in its group. */
  ghost predicate SearchResult(text: string, open: string, close: string, i: int, j: int) {
    && Matches(text, open, close, i, j)
    && (forall h, k :: Matches(text, open, close, h, k) ==> i <= h)
    && (forall k :: Matches(text, open, close, i, k) ==> j <= k)
  }

  /** Group 1 of `re.compile(open + "(.*?)" + close, re.DOTALL).search(text)`. */
  function Search(text: string, open: string, close: string): (r: Option<string>)
    ensures r.Some? ==> exists i, j :: SearchResult(text, open, close, i, j) && r.value == text[i + |open|..j]
    ensures r.None? ==> forall i, j :: !Matches(text, open, close, i, j)
  {
    match Find(text, open, 0)
    case None => None
    case Some(i) =>
      match Find(text, close, i + |open|)
      case None => None
      case Some(j) =>
        assert SearchResult(text, open, close, i, j);
        Some(text[i + |open|..j])
  }

  lemma SearchIs(text: string, open: string, close: string, i: int, j: int)
    requires Matches(text, open, close, i, j)
    requires forall h :: 0 <= h < i ==> !At(text, open, h)
    requires forall k :: i + |open| <= k < j ==> !At(text, close, k)
    ensures Search(text, open, close) == Some(text[i + |open|..j])
  {
  }

  const ERROR_OPEN := "Error: \""
  const ERROR_CLOSE := "\"\nStdout: "
  const STDOUT_OPEN := "Stdout: \""
  const STDOUT_CLOSE := "\"\nStderr: "

  // ---------------------------------------------------------------- the parser

  datatype Outcome =
    | KubectlFailed(error: string)  // RuntimeError carrying the stripped error text
    | Unreadable(text: string)      // RuntimeError: not a reply
    | BadEscape                     // JSONDecodeError from a field
    | Plain(stdout: string)         // returned as it is
    | Document(stdout: string)      // json.loads(stdout)
    | EmptyObject                   // {}

  /** What is done with the standard output once it has been extracted. */
  function Deliver(stdout: string, wantJson: bool): Outcome {
    if !wantJson then Plain(stdout)
    else if Strip(stdout) != [] then Document(stdout)
    else EmptyObject
  }

  function ParseStdout(text: string, wantJson: bool): Outcome {
    match Search(text, STDOUT_OPEN, STDOUT_CLOSE)
    case None => Unreadable(text[..if |text| < 300 then |text| else 300])
    case Some(group) =>
      match Unescape(group)
      case None => BadEscape
      case Some(stdout) => Deliver(stdout, wantJson)
  }

  /** `_parse_kubectl_tool_result`. */
  function ParseReply(text: string, wantJson: bool): Outcome {
    match Search(text, ERROR_OPEN, ERROR_CLOSE)
    case None => ParseStdout(text, wantJson)
    case Some(group) =>
      match Unescape(group)
      case None => BadEscape
      case Some(error) => if Strip(error) != [] then KubectlFailed(Strip(error)) else ParseStdout(text, wantJson)
  }

  // ---------------------------------------------------------------- the printer

  // What stands before the fields.
  const HEAD := "Command: \""
  const TO_ERROR := "\"\nError: \""
  const TO_STDOUT := "\"\nStdout: \""

  /** A reply: the fields in their fixed order, each printed with `%q`; `tail` is whatever
      follows `Stderr: `. */
  function Render(printable: char -> bool, command: string, error: string, stdout: string, tail: string): string {
    Layout(Escape(printable, command), Escape(printable, error), Escape(printable, stdout), tail)
  }

  /** The layout of a reply around its printed fields. */
  function Layout(c: string, e: string, o: string, tail: string): string {
    HEAD + c + TO_ERROR + e + (TO_STDOUT + o + STDOUT_CLOSE + tail)
  }

  // ---------------------------------------------------------------- where the boundaries lie

  /** `piece` stands in the text from position `i` on, letter by letter. */
  ghost predicate Stands(text: string, piece: string, i: int) {
    && 0 <= i && i + |piece| <= |text|
    && forall p :: i <= p < i + |piece| ==> text[p] == piece[p - i]
  }

  lemma StandsIsAt(text: string, piece: string, i: int)
    ensures Stands(text, piece, i) <==> At(text, piece, i)
  {
    if At(text, piece, i) {
      forall p | i <= p < i + |piece|
        ensures text[p] == piece[p - i]
      {
        assert text[i..i + |piece|][p - i] == text[p];
      }
    }
  }

  /** The first half of a reply: the command `c` and the error `e`. */
  ghost predicate FrontLaid(text: string, c: string, e: string) {
    Stands(text, HEAD, 0) && Stands(text, c, 10) && Stands(text, TO_ERROR, 10 + |c|) && Stands(text, e, 20 + |c|)
  }

  /** The second half, from position `i` on: the standard output `o`. */
  ghost predicate BackLaid(text: string, o: string, i: int) {
    Stands(text, TO_STDOUT, i) && Stands(text, o, i + 11) && Stands(text, STDOUT_CLOSE, i + 11 + |o|)
  }

  /** A reply with `Error: "` at `errorAt` and `Stdout: "` at `stdoutAt`. */
  ghost predicate LaidOut(text: string, c: string, e: string, o: string, errorAt: int, stdoutAt: int) {
    && errorAt == |c| + 12 && stdoutAt == errorAt + |e| + 10
    && FrontLaid(text, c, e) && BackLaid(text, o, stdoutAt - 2)
  }

  lemma StandsAfter(front: string, piece: string, back: string)
    ensures Stands(front + piece + back, piece, |front|)
  {
  }

  lemma FourPieces(a: string, b: string, c: string, d: string)
    ensures var text := a + b + c + d;
      Stands(text, a, 0) && Stands(text, b, |a|) && Stands(text, c, |a| + |b|) && Stands(text, d, |a| + |b| + |c|)
  {
    StandsAfter(a + b + c, d, []);
    assert a + b + c + d + [] == a + b + c + d;
    StandsAfter(a + b, c, d);
    StandsAfter(a, b, c + d);
    assert a + b + (c + d) == a + b + c + d;
  }

  lemma FrontPieces(c: string, e: string, back: string)
    ensures FrontLaid(HEAD + c + TO_ERROR + e + back, c, e)
  {
    var a := HEAD + c + TO_ERROR + e;
    FourPieces(HEAD, c, TO_ERROR, e);
    LeftHalf(a, back, HEAD, 0);
    LeftHalf(a, back, c, 10);
    LeftHalf(a, back, TO_ERROR, 10 + |c|);
    LeftHalf(a, back, e, 20 + |c|);
  }

  lemma BackPieces(front: string, o: string, tail: string)
    ensures BackLaid(front + (TO_STDOUT + o + STDOUT_CLOSE + tail), o, |front|)
  {
    var b := TO_STDOUT + o + STDOUT_CLOSE + tail;
    FourPieces(TO_STDOUT, o, STDOUT_CLOSE, tail);
    RightHalf(front, b, TO_STDOUT, 0);
    RightHalf(front, b, o, 11);
    RightHalf(front, b, STDOUT_CLOSE, 11 + |o|);
  }

  lemma LayoutLaidOut(c: string, e: string, o: string, tail: string)
    ensures LaidOut(Layout(c, e, o, tail), c, e, o, |c| + 12, |c| + |e| + 22)
  {
    FrontPieces(c, e, TO_STDOUT + o + STDOUT_CLOSE + tail);
    BackPieces(HEAD + c + TO_ERROR + e, o, tail);
    assert |HEAD| == 10 && |TO_ERROR| == 10;
  }

  lemma LeftHalf(a: string, b: string, piece: string, i: int)
    requires Stands(a, piece, i)
    ensures Stands(a + b, piece, i)
  {
  }

  lemma RightHalf(a: string, b: string, piece: string, i: int)
    requires Stands(b, piece, i)
    ensures Stands(a + b, piece, |a| + i)
  {
  }

  /** The boundaries as the regular expressions see them. */
  lemma Boundaries(text: string, c: string, e: string, o: string, errorAt: int, stdoutAt: int)
    requires LaidOut(text, c, e, o, errorAt, stdoutAt)
    ensures At(text, ERROR_OPEN, errorAt) && At(text, ERROR_CLOSE, stdoutAt - 2)
    ensures At(text, STDOUT_OPEN, stdoutAt) && At(text, STDOUT_CLOSE, stdoutAt + 9 + |o|)
    ensures text[errorAt - 2] == '"' && text[errorAt - 1] == '\n' && text[stdoutAt - 2] == '"'
  {
    ToErrorParts(text, errorAt - 2);
    ToStdoutParts(text, stdoutAt - 2);
    StandsIsAt(text, STDOUT_CLOSE, stdoutAt + 9 + |o|);
  }

  lemma ToErrorParts(text: string, i: int)
    requires Stands(text, TO_ERROR, i)
    ensures At(text, ERROR_OPEN, i + 2) && text[i] == '"' && text[i + 1] == '\n'
  {
    assert TO_ERROR == "\"\n" + ERROR_OPEN + "";
    Shifted(text, "\"\n", ERROR_OPEN, "", i);
  }

  lemma ToStdoutParts(text: string, i: int)
    requires Stands(text, TO_STDOUT, i)
    ensures At(text, STDOUT_OPEN, i + 2) && At(text, ERROR_CLOSE, i) && text[i] == '"'
  {
    assert TO_STDOUT == "\"\n" + STDOUT_OPEN + "" && TO_STDOUT == "" + ERROR_CLOSE + "\"";
    Shifted(text, "\"\n", STDOUT_OPEN, "", i);
    Shifted(text, "", ERROR_CLOSE, "\"", i);
  }

  lemma Shifted(text: string, front: string, piece: string, back: string, i: int)
    requires Stands(text, front + piece + back, i)
    ensures At(text, piece, i + |front|)
  {
    forall p | i + |front| <= p < i + |front| + |piece|
      ensures text[p] == piece[p - i - |front|]
    {
      assert text[p] == (front + piece + back)[p - i];
    }
    StandsIsAt(text, piece, i + |front|);
  }

  /** A word to look for before a quote: it ends in a space and holds no quote. */
  ghost predicate IsWord(w: string) {
    |w| > 0 && w[|w|-1] == ' ' && forall k :: 0 <= k < |w| ==> w[k] != '"'
  }

  /** An occurrence of the word `w` and a quote, letter by letter. */
  lemma WordPoints(text: string, w: string, h: int)
    requires IsWord(w) && At(text, w + "\"", h)
    ensures 0 <= h && h + |w| < |text| && text[h + |w|] == '"' && text[h + |w| - 1] == ' '
    ensures forall p :: h <= p < h + |w| ==> text[p] == w[p - h] && text[p] != '"'
  {
    StandsIsAt(text, w + "\"", h);
    forall p | h <= p < h + |w|
      ensures text[p] == w[p - h]
    {
      assert text[p] == (w + "\"")[p - h];
    }
  }

  /** Inside a sealed field every quote follows a backslash, and there is no raw newline. */
  lemma FieldPoints(text: string, f: string, s: int)
    requires Sealed(f) && Stands(text, f, s)
    ensures forall p {:trigger text[p]} ::
      s <= p < s + |f| ==> text[p] as int >= 0x20 && (text[p] == '"' ==> p > 0 && text[p-1] == '\\')
  {
    forall p {:trigger text[p]} | s <= p < s + |f|
      ensures text[p] as int >= 0x20 && (text[p] == '"' ==> p > 0 && text[p-1] == '\\')
    {
      assert SealedAt(f, p - s);
      assert p > s ==> text[p-1] == f[p - 1 - s];
    }
  }

  /** The quote after an occurrence of `w` is not inside a sealed field; it can close the field,
      and then the field ends in `w`. */
  lemma FieldOpens(text: string, s: int, f: string, w: string, h: int)
    requires Sealed(f) && IsWord(w) && At(text, w + "\"", h)
    requires 1 <= s && s + |f| < |text| && Stands(text, f, s) && text[s-1] == '"'
    requires s <= h + |w| <= s + |f|
    ensures h + |w| == s + |f| && EndsWith(f, w)
  {
    WordPoints(text, w, h);
    FieldPoints(text, f, s);
    assert h + |w| == s + |f| && h >= s;
    forall k | 0 <= k < |w|
      ensures f[h - s + k] == w[k]
    {
      assert text[h + k] == w[h + k - h] && text[h + k] == f[h + k - s];
    }
    assert f[|f| - |w|..] == w;
  }

  /** A boundary does not begin inside a sealed field. */
  lemma FieldCloses(text: string, s: int, f: string, close: string, k: int)
    requires Sealed(f) && 0 <= s && s + |f| < |text| && Stands(text, f, s) && text[s + |f|] == '"'
    requires |close| > 1 && close[1] == '\n' && s <= k < s + |f|
    ensures !At(text, close, k)
  {
    FieldPoints(text, f, s);
    if At(text, close, k) {
      SecondLetter(text, close, k);
    }
  }

  lemma SecondLetter(text: string, word: string, k: int)
    requires At(text, word, k) && |word| > 1
    ensures k + 1 < |text| && text[k + 1] == word[1]
  {
    assert text[k..k + |word|][1] == text[k + 1];
  }

  /** Between the fields a quote after a space stands only at the openings. */
  lemma LiteralPoints(text: string, c: string, e: string, o: string, errorAt: int, stdoutAt: int)
    requires LaidOut(text, c, e, o, errorAt, stdoutAt)
    ensures forall p :: 0 <= p < 9 ==> text[p] != '"'
    ensures text[9] == '"' && text[1] == 'o' && text[2] == 'm'
    ensures text[errorAt + 7] == '"' && text[errorAt] == 'E' && text[errorAt - 1] == '\n'
    ensures forall p :: errorAt - 1 <= p < errorAt + 7 ==> text[p] != '"'
    ensures forall p :: stdoutAt - 1 <= p < stdoutAt + 8 ==> text[p] != '"'
  {
  }

  /** Before the error field, `Error: "` occurs only where the command ends in `Error: `. */
  lemma BeforeError(text: string, c: string, e: string, o: string, errorAt: int, stdoutAt: int, h: int)
    requires LaidOut(text, c, e, o, errorAt, stdoutAt) && Sealed(c)
    requires At(text, ERROR_OPEN, h) && h < errorAt
    ensures h == errorAt - 9 && EndsWith(c, "Error: ")
  {
    assert ERROR_OPEN == "Error: " + "\"";
    WordPoints(text, "Error: ", h);
    LiteralPoints(text, c, e, o, errorAt, stdoutAt);
    assert text[h] == 'E';
    assert 10 <= h + 7 <= errorAt - 2;
    FieldOpens(text, 10, c, "Error: ", h);
  }

  /** Before the output field, `Stdout: "` occurs only where the command or the error ends in
      `Stdout: `. */
  lemma BeforeStdout(text: string, c: string, e: string, o: string, errorAt: int, stdoutAt: int, h: int)
    requires LaidOut(text, c, e, o, errorAt, stdoutAt) && Sealed(c) && Sealed(e)
    requires At(text, STDOUT_OPEN, h) && h < stdoutAt
    ensures (h == errorAt - 10 && EndsWith(c, "Stdout: ")) || EndsWith(e, "Stdout: ")
  {
    assert STDOUT_OPEN == "Stdout: " + "\"";
    WordPoints(text, "Stdout: ", h);
    LiteralPoints(text, c, e, o, errorAt, stdoutAt);
    assert text[h] == 'S' && text[h + 1] == 't';
    assert 10 <= h + 8 <= errorAt - 2 || errorAt + 8 <= h + 8 <= stdoutAt - 2;
    if h + 8 <= errorAt - 2 {
      FieldOpens(text, 10, c, "Stdout: ", h);
    } else {
      FieldOpens(text, errorAt + 8, e, "Stdout: ", h);
    }
  }

  // ---------------------------------------------------------------- what the searches find

  /** The group of a search from the leftmost opening, if that opening is followed by a newline
      or by a sealed field and the boundary. */
  lemma SearchSealed(text: string, open: string, close: string, i: int, f: string)
    requires At(text, open, i) && forall h :: 0 <= h < i ==> !At(text, open, h)
    requires Sealed(f) && Stands(text, f, i + |open|) && At(text, close, i + |open| + |f|)
    requires |close| > 1 && close[0] == '"' && close[1] == '\n'
    ensures Search(text, open, close) == Some(f)
  {
    var s := i + |open|;
    NoCloseInside(text, s, f, close);
    StandsIsAt(text, f, s);
    SearchIs(text, open, close, i, s + |f|);
  }

  lemma NoCloseInside(text: string, s: int, f: string, close: string)
    requires 0 <= s && Sealed(f) && Stands(text, f, s) && At(text, close, s + |f|)
    requires |close| > 1 && close[0] == '"' && close[1] == '\n'
    ensures forall k :: s <= k < s + |f| ==> !At(text, close, k)
  {
    StandsIsAt(text, close, s + |f|);
    forall k | s <= k < s + |f|
      ensures !At(text, close, k)
    {
      FieldCloses(text, s, f, close, k);
    }
  }

  lemma SearchRaw(text: string, open: string, close: string, i: int, j: int)
    requires At(text, open, i) && forall h :: 0 <= h < i ==> !At(text, open, h)
    requires At(text, close, j) && i + |open| <= j && |close| > 1 && close[0] == '"' && text[i + |open|] == '\n'
    ensures Search(text, open, close).Some? && Unescape(Search(text, open, close).value).None?
  {
    var k := Find(text, close, i + |open|).value;
    SearchIs(text, open, close, i, k);
    StandsIsAt(text, close, k);
    assert text[k] == close[k - k];
  }

  /** A command that ends in `w` makes an opening of its closing quote, before a raw newline. */
  lemma CommandOpens(text: string, c: string, e: string, o: string, errorAt: int, stdoutAt: int, w: string)
    requires LaidOut(text, c, e, o, errorAt, stdoutAt) && EndsWith(c, w)
    ensures At(text, w + "\"", errorAt - 2 - |w|) && text[errorAt - 1] == '\n'
  {
    var h := errorAt - 2 - |w|;
    Boundaries(text, c, e, o, errorAt, stdoutAt);
    forall p | h <= p < h + |w| + 1
      ensures text[p] == (w + "\"")[p - h]
    {
      if p < h + |w| {
        assert text[p] == c[p - 10] && c[p - 10] == c[|c| - |w|..][p - h];
      }
    }
    StandsIsAt(text, w + "\"", h);
  }

  /** The error field is found, unless the command ends in `Error: `: then the group starts with
      a raw newline, which is refused. */
  lemma ErrorGroup(text: string, c: string, e: string, o: string, errorAt: int, stdoutAt: int)
    requires LaidOut(text, c, e, o, errorAt, stdoutAt) && Sealed(c) && Sealed(e)
    ensures !EndsWith(c, "Error: ") ==> Search(text, ERROR_OPEN, ERROR_CLOSE) == Some(e)
    ensures EndsWith(c, "Error: ") ==>
      Search(text, ERROR_OPEN, ERROR_CLOSE).Some? && Unescape(Search(text, ERROR_OPEN, ERROR_CLOSE).value).None?
  {
    Boundaries(text, c, e, o, errorAt, stdoutAt);
    forall h | 0 <= h < errorAt && At(text, ERROR_OPEN, h)
      ensures h == errorAt - 9 && EndsWith(c, "Error: ")
    {
      BeforeError(text, c, e, o, errorAt, stdoutAt, h);
    }
    if EndsWith(c, "Error: ") {
      CommandOpens(text, c, e, o, errorAt, stdoutAt, "Error: ");
      assert "Error: " + "\"" == ERROR_OPEN;
      SearchRaw(text, ERROR_OPEN, ERROR_CLOSE, errorAt - 9, stdoutAt - 2);
    } else {
      SearchSealed(text, ERROR_OPEN, ERROR_CLOSE, errorAt, e);
    }
  }

  /** The output field is found, unless the command ends in `Stdout: `, provided the error does
      not. */
  lemma StdoutGroup(text: string, c: string, e: string, o: string, errorAt: int, stdoutAt: int)
    requires LaidOut(text, c, e, o, errorAt, stdoutAt) && Sealed(c) && Sealed(e) && Sealed(o)
    requires !EndsWith(e, "Stdout: ")
    ensures !EndsWith(c, "Stdout: ") ==> Search(text, STDOUT_OPEN, STDOUT_CLOSE) == Some(o)
    ensures EndsWith(c, "Stdout: ") ==>
      Search(text, STDOUT_OPEN, STDOUT_CLOSE).Some? && Unescape(Search(text, STDOUT_OPEN, STDOUT_CLOSE).value).None?
  {
    if EndsWith(c, "Stdout: ") {
      StdoutTooEarly(text, c, e, o, errorAt, stdoutAt);
    } else {
      StdoutFound(text, c, e, o, errorAt, stdoutAt);
    }
  }

  lemma StdoutTooEarly(text: string, c: string, e: string, o: string, errorAt: int, stdoutAt: int)
    requires LaidOut(text, c, e, o, errorAt, stdoutAt) && Sealed(c) && Sealed(e)
    requires !EndsWith(e, "Stdout: ") && EndsWith(c, "Stdout: ")
    ensures Search(text, STDOUT_OPEN, STDOUT_CLOSE).Some? && Unescape(Search(text, STDOUT_OPEN, STDOUT_CLOSE).value).None?
  {
    Boundaries(text, c, e, o, errorAt, stdoutAt);
    StdoutOpenings(text, c, e, o, errorAt, stdoutAt);
    CommandOpens(text, c, e, o, errorAt, stdoutAt, "Stdout: ");
    assert "Stdout: " + "\"" == STDOUT_OPEN;
    SearchRaw(text, STDOUT_OPEN, STDOUT_CLOSE, errorAt - 10, stdoutAt + 9 + |o|);
  }

  lemma StdoutFound(text: string, c: string, e: string, o: string, errorAt: int, stdoutAt: int)
    requires LaidOut(text, c, e, o, errorAt, stdoutAt) && Sealed(c) && Sealed(e) && Sealed(o)
    requires !EndsWith(e, "Stdout: ") && !EndsWith(c, "Stdout: ")
    ensures Search(text, STDOUT_OPEN, STDOUT_CLOSE) == Some(o)
  {
    Boundaries(text, c, e, o, errorAt, stdoutAt);
    StdoutOpenings(text, c, e, o, errorAt, stdoutAt);
    SearchSealed(text, STDOUT_OPEN, STDOUT_CLOSE, stdoutAt, o);
  }

  lemma StdoutOpenings(text: string, c: string, e: string, o: string, errorAt: int, stdoutAt: int)
    requires LaidOut(text, c, e, o, errorAt, stdoutAt) && Sealed(c) && Sealed(e) && !EndsWith(e, "Stdout: ")
    ensures forall h :: 0 <= h < stdoutAt && At(text, STDOUT_OPEN, h) ==> h == errorAt - 10 && EndsWith(c, "Stdout: ")
  {
    forall h | 0 <= h < stdoutAt && At(text, STDOUT_OPEN, h)
      ensures h == errorAt - 10 && EndsWith(c, "Stdout: ")
    {
      BeforeStdout(text, c, e, o, errorAt, stdoutAt, h);
    }
  }

  // ---------------------------------------------------------------- reading a printed reply

  lemma Suffixes(printable: char -> bool, s: string)
    requires GoPrintable(printable)
    ensures EndsWith(Escape(printable, s), "Error: ") <==> EndsWith(s, "Error: ")
    ensures EndsWith(Escape(printable, s), "Stdout: ") <==> EndsWith(s, "Stdout: ")
  {
    EscaperIsCode(printable);
    assert Solid("Error: ");
    assert Solid("Stdout: ");
    EndsAlike(Escaper(printable), s, "Error: ");
    EndsAlike(Escaper(printable), s, "Stdout: ");
  }

  lemma BlankSuffix(s: string)
    requires Blank(s)
    ensures !EndsWith(s, "Stdout: ")
  {
    if EndsWith(s, "Stdout: ") {
      FirstOfSuffix(s, "Stdout: ");
    }
  }

  lemma FirstOfSuffix(s: string, w: string)
    requires EndsWith(s, w) && w != []
    ensures |s| >= |w| && s[|s| - |w|] == w[0]
  {
    assert s[|s| - |w|..][0] == s[|s| - |w|];
  }

  lemma FieldsSealed(printable: char -> bool, s: string)
    requires GoPrintable(printable)
    ensures Sealed(Escape(printable, s))
  {
    EscaperIsCode(printable);
    SpellSealed(Escaper(printable), s);
  }

  lemma ErrorSearch(printable: char -> bool, command: string, error: string, stdout: string, tail: string)
    requires GoPrintable(printable)
    ensures var found := Search(Render(printable, command, error, stdout, tail), ERROR_OPEN, ERROR_CLOSE);
      if EndsWith(command, "Error: ") then found.Some? && Unescape(found.value).None?
      else found == Some(Escape(printable, error))
  {
    var c, e, o := Escape(printable, command), Escape(printable, error), Escape(printable, stdout);
    FieldsSealed(printable, command);
    FieldsSealed(printable, error);
    LayoutLaidOut(c, e, o, tail);
    Suffixes(printable, command);
    ErrorGroup(Layout(c, e, o, tail), c, e, o, |c| + 12, |c| + |e| + 22);
  }

  lemma StdoutSearch(printable: char -> bool, command: string, error: string, stdout: string, tail: string)
    requires GoPrintable(printable) && Blank(error)
    ensures var found := Search(Render(printable, command, error, stdout, tail), STDOUT_OPEN, STDOUT_CLOSE);
      if EndsWith(command, "Stdout: ") then found.Some? && Unescape(found.value).None?
      else found == Some(Escape(printable, stdout))
  {
    var c, e, o := Escape(printable, command), Escape(printable, error), Escape(printable, stdout);
    FieldsSealed(printable, command);
    FieldsSealed(printable, error);
    FieldsSealed(printable, stdout);
    LayoutLaidOut(c, e, o, tail);
    Suffixes(printable, command);
    Suffixes(printable, error);
    BlankSuffix(error);
    StdoutGroup(Layout(c, e, o, tail), c, e, o, |c| + 12, |c| + |e| + 22);
  }

  /** What the parser makes of any printed reply. A printed error that is not blank is raised,
      stripped; otherwise the standard output is delivered. The exceptions, all of them: a field
      with a character that JSON does not spell as Go does, and a command that ends in `Error: `
      or `Stdout: ` and so makes the search start too early. */
  lemma ReadsPrintedReply(printable: char -> bool, command: string, error: string, stdout: string, tail: string, wantJson: bool)
    requires GoPrintable(printable)
    ensures ParseReply(Render(printable, command, error, stdout, tail), wantJson) ==
      if EndsWith(command, "Error: ") || !AllShared(printable, error) then BadEscape
      else if !Blank(error) then KubectlFailed(Strip(error))
      else if EndsWith(command, "Stdout: ") || !AllShared(printable, stdout) then BadEscape
      else if !wantJson then Plain(stdout)
      else if Blank(stdout) then EmptyObject
      else Document(stdout)
  {
    ErrorSearch(printable, command, error, stdout, tail);
    UnescapeEscape(printable, error);
    UnescapeEscape(printable, stdout);
    StripEmpty(error);
    StripEmpty(stdout);
    if Blank(error) {
      StdoutSearch(printable, command, error, stdout, tail);
    }
  }

  /** A text without an output field, and without an error field either, is no reply: it is raised
      with its beginning. */
  lemma NoReply(text: string, wantJson: bool)
    requires forall i, j :: !Matches(text, ERROR_OPEN, ERROR_CLOSE, i, j) && !Matches(text, STDOUT_OPEN, STDOUT_CLOSE, i, j)
    ensures ParseReply(text, wantJson).Unreadable?
    ensures var shown := ParseReply(text, wantJson).text;
      shown <= text && |shown| <= 300 && (|shown| < 300 ==> shown == text)
  {
  }

  /** A text with an output field and no error field is read by its output alone. */
  lemma OutputAlone(text: string, wantJson: bool, i: int, j: int)
    requires (forall h, k :: !Matches(text, ERROR_OPEN, ERROR_CLOSE, h, k)) && SearchResult(text, STDOUT_OPEN, STDOUT_CLOSE, i, j)
    ensures ParseReply(text, wantJson) ==
      match Unescape(text[i + |STDOUT_OPEN|..j])
      case None => BadEscape
      case Some(stdout) => if !wantJson then Plain(stdout) else if Blank(stdout) then EmptyObject else Document(stdout)
  {
    assert Search(text, ERROR_OPEN, ERROR_CLOSE).None?;
    assert Search(text, STDOUT_OPEN, STDOUT_CLOSE) == Some(text[i + |STDOUT_OPEN|..j]);
    var stdout := Unescape(text[i + |STDOUT_OPEN|..j]);
    if stdout.Some? {
      StripEmpty(stdout.value);
    }
  }

  // ---------------------------------------------------------------- the commands that are sent

  /** What `shlex.quote` leaves alone: `[a-zA-Z0-9_@%+=:,./-]`. */
  predicate IsSafe(c: char) {
    'a' <= c <= 'z' || 'A' <= c <= 'Z' || '0' <= c <= '9' || c in "_@%+=:,./-"
  }

  function ReplaceQuote(s: string): string {
    if s == [] then [] else (if s[0] == '\'' then "'\"'\"'" else [s[0]]) + ReplaceQuote(s[1..])
  }

  /** `shlex.quote`. */
  function ShellQuote(s: string): string {
    if s == [] then "''"
    else if forall i :: 0 <= i < |s| ==> IsSafe(s[i]) then s
    else "'" + ReplaceQuote(s) + "'"
  }

  /** `shlex.join`. */
  function ShellJoin(args: seq<string>): string {
    if args == [] then ""
    else if |args| == 1 then ShellQuote(args[0])
    else ShellQuote(args[0]) + " " + ShellJoin(args[1..])
  }

  /** A command line never ends in a space, unless there are no arguments at all. */
  lemma {:induction false} JoinEnds(args: seq<string>)
    requires args != []
    ensures ShellJoin(args) != [] && ShellJoin(args)[|ShellJoin(args)|-1] != ' '
  {
    var q := ShellQuote(args[0]);
    assert q != [] && q[|q|-1] != ' ';
    if |args| > 1 {
      JoinEnds(args[1..]);
    }
  }

  function CommandFor(args: seq<string>): string {
    "kubectl " + ShellJoin(args)
  }

  lemma CommandEnds(args: seq<string>)
    ensures !EndsWith(CommandFor(args), "Error: ") && !EndsWith(CommandFor(args), "Stdout: ")
  {
    var t := CommandFor(args);
    if args != [] {
      JoinEnds(args);
      LastOfSuffix(t, "Error: ");
      LastOfSuffix(t, "Stdout: ");
    } else {
      assert t == "kubectl ";
    }
  }

  lemma LastOfSuffix(t: string, w: string)
    requires t != [] && w != [] && t[|t|-1] != w[|w|-1]
    ensures !EndsWith(t, w)
  {
    if EndsWith(t, w) {
      LastOfWord(t, w);
    }
  }

  /** For every argument list the caller gets exactly the stripped error, unless the error is
      blank, and otherwise exactly the standard output: as text, or decoded, an empty object
      standing for a blank one; as long as the characters are shared. */
  lemma RoundTrip(printable: char -> bool, args: seq<string>, error: string, stdout: string, tail: string, wantJson: bool)
    requires GoPrintable(printable) && AllShared(printable, error) && AllShared(printable, stdout)
    ensures ParseReply(Render(printable, CommandFor(args), error, stdout, tail), wantJson) ==
      if !Blank(error) then KubectlFailed(Strip(error))
      else if !wantJson then Plain(stdout)
      else if Blank(stdout) then EmptyObject
      else Document(stdout)
  {
    CommandEnds(args);
    ReadsPrintedReply(printable, CommandFor(args), error, stdout, tail, wantJson);
  }
}
