/** Reading a command line back into its words, by the shell's own rules of quoting (IEEE Std
    1003.1, Shell Command Language, section 2.2), and that what `shlex.join` writes is read back
    as the arguments it was given. */
module ShellWords {
  import opened KubectlReply
  import opened Wrappers

  datatype Mode = Bare | Quoted | DoubleQuoted

  predicate Separates(c: char) {
    c == ' ' || c == '\t' || c == '\r' || c == '\n'
  }

  function Emit(word: Option<string>): seq<string> {
    match word
    case None => []
    case Some(w) => [w]
  }

  /** The word in progress, with one more letter. */
  function Longer(word: Option<string>, more: string): Option<string> {
    match word
    case None => Some(more)
    case Some(w) => Some(w + more)
  }

  /** The words of `s`, read in `mode` with `word` in progress; None for an open quotation or a
      lone backslash at the end. */
  function Words(s: string, mode: Mode, word: Option<string>): Option<seq<string>>
    decreases |s|
  {
    if s == [] then (if mode == Bare then Some(Emit(word)) else None)
    else
      match mode
      case Quoted =>
        if s[0] == '\'' then Words(s[1..], Bare, word) else Words(s[1..], Quoted, Longer(word, [s[0]]))
      case DoubleQuoted =>
        if s[0] == '"' then Words(s[1..], Bare, word)
        else if s[0] == '\\' && |s| > 1 && (s[1] == '"' || s[1] == '\\') then Words(s[2..], DoubleQuoted, Longer(word, [s[1]]))
        else Words(s[1..], DoubleQuoted, Longer(word, [s[0]]))
      case Bare =>
        if Separates(s[0]) then
          (match Words(s[1..], Bare, None)
           case None => None
           case Some(ws) => Some(Emit(word) + ws))
        else if s[0] == '\'' then Words(s[1..], Quoted, Longer(word, ""))
        else if s[0] == '"' then Words(s[1..], DoubleQuoted, Longer(word, ""))
        else if s[0] == '\\' then (if |s| == 1 then None else Words(s[2..], Bare, Longer(word, [s[1]])))
        else Words(s[1..], Bare, Longer(word, [s[0]]))
  }

  // ---------------------------------------------------------------- one argument

  lemma SplitFirst(a: string, c: char, b: string)
    ensures (a + [c] + b) == a + ([c] + b)
    ensures ([c] + b)[0] == c && ([c] + b)[1..] == b
  {
  }

  lemma LongerTwice(word: Option<string>, a: string, b: string)
    ensures Longer(Longer(word, a), b) == Longer(word, a + b)
  {
    if word.Some? {
      assert word.value + a + b == word.value + (a + b);
    }
  }

  lemma SafeLetter(c: char)
    requires IsSafe(c)
    ensures !Separates(c) && c != '\'' && c != '"' && c != '\\'
  {
  }

  lemma BareLetter(c: char, rest: string, word: Option<string>)
    requires IsSafe(c)
    ensures Words([c] + rest, Bare, word) == Words(rest, Bare, Longer(word, [c]))
  {
    SafeLetter(c);
    SplitFirst("", c, rest);
  }

  lemma {:induction false} SafeIsRead(a: string, rest: string, word: Option<string>)
    requires a != [] && forall i :: 0 <= i < |a| ==> IsSafe(a[i])
    ensures Words(a + rest, Bare, word) == Words(rest, Bare, Longer(word, a))
  {
    assert a + rest == [a[0]] + (a[1..] + rest);
    BareLetter(a[0], a[1..] + rest, word);
    if |a| == 1 {
      assert a[1..] + rest == rest && [a[0]] == a;
    } else {
      SafeIsRead(a[1..], rest, Longer(word, [a[0]]));
      LongerTwice(word, [a[0]], a[1..]);
      assert [a[0]] + a[1..] == a;
    }
  }

  lemma Opens(rest: string, word: string)
    ensures Words("'" + rest, Bare, Some(word)) == Words(rest, Quoted, Some(word))
    ensures Words("\"" + rest, Bare, Some(word)) == Words(rest, DoubleQuoted, Some(word))
  {
    SplitFirst("", '\'', rest);
    SplitFirst("", '"', rest);
    assert word + "" == word;
  }

  lemma Closes(rest: string, word: string)
    ensures Words("'" + rest, Quoted, Some(word)) == Words(rest, Bare, Some(word))
    ensures Words("\"" + rest, DoubleQuoted, Some(word)) == Words(rest, Bare, Some(word))
    ensures Words("'" + rest, DoubleQuoted, Some(word)) == Words(rest, DoubleQuoted, Some(word + "'"))
  {
    SplitFirst("", '\'', rest);
    SplitFirst("", '"', rest);
  }

  lemma QuoteIsRead(back: string, word: string)
    ensures Words("'\"'\"'" + back, Quoted, Some(word)) == Words(back, Quoted, Some(word + "'"))
  {
    var a, b, c, d := "\"'\"'" + back, "'\"'" + back, "\"'" + back, "'" + back;
    assert "'\"'\"'" + back == "'" + a && a == "\"" + b && b == "'" + c && c == "\"" + d;
    Closes(a, word);
    Opens(b, word);
    Closes(c, word);
    Closes(d, word + "'");
    Opens(back, word + "'");
  }

  lemma PlainIsRead(c: char, back: string, word: string)
    requires c != '\''
    ensures Words([c] + back, Quoted, Some(word)) == Words(back, Quoted, Some(word + [c]))
  {
    SplitFirst("", c, back);
  }

  /** Inside quotes an argument is read back letter by letter; each of its own quotes leaves the
      quotation and comes back to it. */
  lemma {:induction false} QuotedIsRead(a: string, rest: string, word: string)
    ensures Words(ReplaceQuote(a) + rest, Quoted, Some(word)) == Words(rest, Quoted, Some(word + a))
  {
    if a == [] {
      assert ReplaceQuote(a) + rest == rest && word + a == word;
    } else {
      var back := ReplaceQuote(a[1..]) + rest;
      var longer := word + [a[0]];
      assert longer + a[1..] == word + a;
      QuotedIsRead(a[1..], rest, longer);
      if a[0] == '\'' {
        assert ReplaceQuote(a) + rest == "'\"'\"'" + back && longer == word + "'";
        QuoteIsRead(back, word);
      } else {
        assert ReplaceQuote(a) + rest == [a[0]] + back;
        PlainIsRead(a[0], back, word);
      }
    }
  }

  lemma OpensWord(rest: string)
    ensures Words("'" + rest, Bare, None) == Words(rest, Quoted, Some(""))
  {
    SplitFirst("", '\'', rest);
  }

  lemma EmptyIsRead(rest: string)
    ensures Words("''" + rest, Bare, None) == Words(rest, Bare, Some(""))
  {
    assert "''" + rest == "'" + ("'" + rest);
    OpensWord("'" + rest);
    Closes(rest, "");
  }

  lemma WrappedIsRead(a: string, rest: string)
    ensures Words("'" + ReplaceQuote(a) + "'" + rest, Bare, None) == Words(rest, Bare, Some(a))
  {
    var closing := "'" + rest;
    var inner := ReplaceQuote(a) + closing;
    assert "'" + ReplaceQuote(a) + "'" + rest == "'" + inner;
    assert "" + a == a;
    OpensWord(inner);
    QuotedIsRead(a, closing, "");
    Closes(rest, a);
  }

  /** Whichever way an argument is quoted, it is read as itself. */
  lemma ArgumentIsRead(a: string, rest: string)
    ensures Words(ShellQuote(a) + rest, Bare, None) == Words(rest, Bare, Some(a))
  {
    var q := ShellQuote(a);
    if a == [] {
      assert q == "''";
      EmptyIsRead(rest);
    } else if forall i :: 0 <= i < |a| ==> IsSafe(a[i]) {
      assert q == a;
      SafeIsRead(a, rest, None);
    } else {
      assert q == "'" + ReplaceQuote(a) + "'";
      WrappedIsRead(a, rest);
    }
  }

  // ---------------------------------------------------------------- all arguments

  function Reader(): string -> Option<seq<string>> {
    (s: string) => Words(s, Bare, None)
  }

  /** A quoted argument is read as a word of its own, alone or before others. */
  ghost predicate ReadsFront(read: string -> Option<seq<string>>, a: string, back: string) {
    && read(ShellQuote(a)) == Some([a])
    && (read(back).Some? ==> read(ShellQuote(a) + " " + back) == Some([a] + read(back).value))
  }

  lemma EndIsRead(word: string)
    ensures Words("", Bare, Some(word)) == Some([word])
  {
  }

  lemma SpaceIsRead(back: string, word: string)
    ensures Words(back, Bare, None).Some? ==> Words(" " + back, Bare, Some(word)) == Some([word] + Words(back, Bare, None).value)
  {
    SplitFirst("", ' ', back);
  }

  lemma AloneIsRead(a: string)
    ensures Words(ShellQuote(a), Bare, None) == Some([a])
  {
    ArgumentIsRead(a, "");
    assert ShellQuote(a) + "" == ShellQuote(a);
    EndIsRead(a);
  }

  lemma FrontIsRead(a: string, back: string)
    ensures ReadsFront(Reader(), a, back)
  {
    var q := ShellQuote(a);
    AloneIsRead(a);
    ArgumentIsRead(a, " " + back);
    SpaceIsRead(back, a);
    assert q + " " + back == q + (" " + back);
  }

  lemma {:induction false} JoinIsReadBy(read: string -> Option<seq<string>>, args: seq<string>)
    requires read("") == Some([]) && forall a, back :: ReadsFront(read, a, back)
    ensures read(ShellJoin(args)) == Some(args)
  {
    if args == [] {
    } else {
      JoinIsReadBy(read, args[1..]);
      assert ReadsFront(read, args[0], ShellJoin(args[1..]));
      assert [args[0]] + args[1..] == args;
      assert |args| == 1 ==> args == [args[0]];
    }
  }

  /** Splitting the joined arguments gives them back: empty ones, quotes, spaces and all. */
  lemma JoinIsRead(args: seq<string>)
    ensures Words(ShellJoin(args), Bare, None) == Some(args)
  {
    forall a, back
      ensures ReadsFront(Reader(), a, back)
    {
      FrontIsRead(a, back);
    }
    assert Reader()("") == Some([]);
    JoinIsReadBy(Reader(), args);
  }

  /** The command that is sent is `kubectl` with exactly the caller's arguments. */
  lemma CommandReadsBack(args: seq<string>)
    ensures Words(CommandFor(args), Bare, None) == Some(["kubectl"] + args)
  {
    var back := ShellJoin(args);
    JoinIsRead(args);
    FrontIsRead("kubectl", back);
    KubectlIsSafe();
    assert CommandFor(args) == "kubectl" + " " + back;
  }

  lemma KubectlIsSafe()
    ensures ShellQuote("kubectl") == "kubectl"
  {
    assert forall i :: 0 <= i < |"kubectl"| ==> 'a' <= "kubectl"[i] <= 'z';
  }
}
