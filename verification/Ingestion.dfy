/** Splitting a document into chunks at its `## ` headers: `chunk_body` and the regular
    expression `^##\s+(.+)$` it rests on. */
module Ingestion {
  import opened Lists
  import opened Text
  import opened Wrappers

  // ---------------------------------------------------------------- the header expression

  /** A match: from `start`, with the title from `title` to `end`. */
  datatype Header = Header(start: nat, title: nat, end: nat)

  predicate LineStart(s: string, p: nat) {
    p == 0 || (p <= |s| && s[p-1] == '\n')
  }

  /** What the expression accepts: at the start of a line, two hashes, at least one white space
      (a newline counts), a title of at least one character up to the end of its line. */
  ghost predicate Accepts(s: string, h: Header) {
    && LineStart(s, h.start) && h.start + 3 <= h.title < h.end <= |s|
    && s[h.start] == '#' && s[h.start + 1] == '#'
    && (forall i :: h.start + 2 <= i < h.title ==> IsSpace(s[i]))
    && (forall i :: h.title <= i < h.end ==> s[i] != '\n')
    && (h.end == |s| || s[h.end] == '\n')
  }

  /** The first position at or after `i` that is not white space, or the end. */
  function RunEnd(s: string, i: nat): (e: nat)
    requires i <= |s|
    ensures i <= e <= |s| && (forall j :: i <= j < e ==> IsSpace(s[j])) && (e < |s| ==> !IsSpace(s[e]))
    decreases |s| - i
  {
    if i < |s| && IsSpace(s[i]) then RunEnd(s, i + 1) else i
  }

  function LineEnd(s: string, i: nat): (e: nat)
    requires i <= |s|
    ensures i <= e <= |s| && (forall j :: i <= j < e ==> s[j] != '\n') && (e < |s| ==> s[e] == '\n')
    decreases |s| - i
  {
    if i < |s| && s[i] != '\n' then LineEnd(s, i + 1) else i
  }

  /** The last position in `from..upto` that does not hold a newline. */
  function LastVisible(s: string, from: nat, upto: nat): (r: Option<nat>)
    requires upto <= |s|
    ensures r.Some? ==> from <= r.value < upto && s[r.value] != '\n' && forall j :: r.value < j < upto ==> s[j] == '\n'
    ensures r.None? ==> forall j :: from <= j < upto ==> s[j] == '\n'
    decreases upto
  {
    if upto <= from then None
    else if s[upto-1] != '\n' then Some(upto - 1)
    else LastVisible(s, from, upto - 1)
  }

  /** Where the title starts: the white space is taken greedily, and given back only if it runs
      to the end of the text. */
  function TitleStart(s: string, p: nat): Option<nat>
    requires p + 2 <= |s|
  {
    var e := RunEnd(s, p + 2);
    if e == |s| then LastVisible(s, p + 3, |s|)
    else if e > p + 2 then Some(e)
    else None
  }

  /** The match at position `p`. */
  function MatchAt(s: string, p: nat): Option<Header> {
    if p + 2 <= |s| && LineStart(s, p) && s[p] == '#' && s[p+1] == '#' then
      match TitleStart(s, p)
      case None => None
      case Some(t) => if t < |s| then Some(Header(p, t, LineEnd(s, t))) else None
    else None
  }

  /** The match is the one the expression prescribes: it exists exactly when something is
      accepted at that position, and its white space is the longest. */
  lemma MatchIsGreedy(s: string, p: nat)
    ensures MatchAt(s, p).Some? ==> MatchAt(s, p).value.start == p && Accepts(s, MatchAt(s, p).value)
    ensures forall h :: Accepts(s, h) && h.start == p ==> MatchAt(s, p).Some? && h.title <= MatchAt(s, p).value.title
    ensures forall h :: Accepts(s, h) && h.start == p && h.title == MatchAt(s, p).value.title ==> MatchAt(s, p) == Some(h)
  {
    forall h | Accepts(s, h) && h.start == p
      ensures MatchAt(s, p).Some? && h.title <= MatchAt(s, p).value.title
      ensures h.title == MatchAt(s, p).value.title ==> MatchAt(s, p) == Some(h)
    {
      var e := RunEnd(s, p + 2);
      assert h.title <= e;
      assert s[h.title] != '\n';
      if h.title == MatchAt(s, p).value.title {
        assert LineEnd(s, h.title) == h.end;
      }
    }
  }

  // ---------------------------------------------------------------- all headers

  /** The first match at or after `p`. */
  function FirstMatch(s: string, p: nat): (r: Option<Header>)
    ensures r.Some? ==> p <= r.value.start < r.value.end <= |s|
    decreases |s| - p
  {
    MatchIsGreedy(s, p);
    if p >= |s| then None
    else if MatchAt(s, p).Some? then MatchAt(s, p)
    else FirstMatch(s, p + 1)
  }

  /** It is a match, and nothing before it is; without one nothing matches at all. */
  lemma {:induction false} FirstMatchIsFirst(s: string, p: nat)
    ensures FirstMatch(s, p).Some? ==> MatchAt(s, FirstMatch(s, p).value.start) == FirstMatch(s, p)
    ensures forall q: nat :: p <= q && MatchAt(s, q).Some? ==> FirstMatch(s, p).Some? && FirstMatch(s, p).value.start <= q
    decreases |s| - p
  {
    MatchIsGreedy(s, p);
    if p < |s| && MatchAt(s, p).None? {
      FirstMatchIsFirst(s, p + 1);
    }
  }

  /** `finditer` from position `p` on. */
  function Headers(s: string, p: nat): seq<Header>
    decreases |s| - p
  {
    match FirstMatch(s, p)
    case None => []
    case Some(h) => [h] + Headers(s, h.end)
  }

  /** Header `i` is a match, and lies before the next one. */
  ghost predicate PlacedAt(s: string, p: nat, hs: seq<Header>, i: int) {
    0 <= i < |hs| ==>
      && p <= hs[i].start < hs[i].end <= |s| && MatchAt(s, hs[i].start) == Some(hs[i])
      && (i + 1 < |hs| ==> hs[i].end <= hs[i + 1].start)
  }

  lemma {:induction false} HeadersPlaced(s: string, p: nat)
    ensures forall i :: PlacedAt(s, p, Headers(s, p), i)
    decreases |s| - p
  {
    var first := FirstMatch(s, p);
    FirstMatchIsFirst(s, p);
    if first.Some? {
      var rest := Headers(s, first.value.end);
      HeadersPlaced(s, first.value.end);
      FirstPlaced(s, p, first.value, rest);
    }
  }

  lemma FirstPlaced(s: string, p: nat, h: Header, rest: seq<Header>)
    requires p <= h.start < h.end <= |s| && MatchAt(s, h.start) == Some(h)
    requires forall i :: PlacedAt(s, h.end, rest, i)
    ensures forall i :: PlacedAt(s, p, [h] + rest, i)
  {
    forall i
      ensures PlacedAt(s, p, [h] + rest, i)
    {
      assert PlacedAt(s, h.end, rest, i - 1) && PlacedAt(s, h.end, rest, 0);
    }
  }

  /** `_SECTION_RE.sub("", s, count=1)`. */
  function WithoutFirst(s: string): string {
    match FirstMatch(s, 0)
    case None => s
    case Some(h) => s[..h.start] + s[h.end..]
  }

  /** Cutting the text at the start of a line, or not at all, does not change what is accepted
      before the cut. */
  lemma CutAccepts(s: string, p: nat, n: nat, h: Header)
    requires p <= n <= |s| && LineStart(s, p) && (n == |s| || (n > 0 && s[n-1] == '\n'))
    ensures Accepts(s[p..n], Header(0, h.title, h.end)) <==>
      p + h.end <= n && Accepts(s, Header(p, p + h.title, p + h.end))
  {
    var t := s[p..n];
    if h.end <= |t| {
      assert forall i :: 0 <= i < |t| ==> t[i] == s[p + i];
      assert forall i :: p <= i < n ==> s[i] == t[i - p];
    }
  }

  /** A header matches its own section as it matches the body. */
  lemma CutMatch(s: string, h: Header, n: nat)
    requires MatchAt(s, h.start) == Some(h) && h.end <= n <= |s| && (n == |s| || (n > 0 && s[n-1] == '\n'))
    ensures h.start <= h.title <= h.end
    ensures MatchAt(s[h.start..n], 0) == Some(Header(0, h.title - h.start, h.end - h.start))
  {
    HeaderFits(s, h);
    var p := h.start;
    var cut := Header(0, h.title - p, h.end - p);
    CutKeeps(s, h, n, cut);
    GreedyMatch(s[p..n], cut);
    CutAdds(s, h, n, MatchAt(s[p..n], 0).value);
  }

  lemma CutKeeps(s: string, h: Header, n: nat, cut: Header)
    requires MatchAt(s, h.start) == Some(h) && h.end <= n <= |s| && (n == |s| || (n > 0 && s[n-1] == '\n'))
    requires h.start <= h.title <= h.end && cut == Header(0, h.title - h.start, h.end - h.start)
    ensures Accepts(s[h.start..n], cut)
  {
    MatchIsGreedy(s, h.start);
    CutAccepts(s, h.start, n, cut);
  }

  lemma GreedyMatch(t: string, h: Header)
    requires Accepts(t, h) && h.start == 0
    ensures MatchAt(t, 0).Some? && MatchAt(t, 0).value.start == 0 && Accepts(t, MatchAt(t, 0).value)
    ensures h.title <= MatchAt(t, 0).value.title
    ensures h.title == MatchAt(t, 0).value.title ==> MatchAt(t, 0) == Some(h)
  {
    MatchIsGreedy(t, 0);
  }

  lemma CutAdds(s: string, h: Header, n: nat, found: Header)
    requires MatchAt(s, h.start) == Some(h) && h.end <= n <= |s| && (n == |s| || (n > 0 && s[n-1] == '\n'))
    requires h.start <= n && found.start == 0 && Accepts(s[h.start..n], found)
    ensures h.start + found.title <= h.title
  {
    MatchIsGreedy(s, h.start);
    CutAccepts(s, h.start, n, found);
    assert Accepts(s, Header(h.start, h.start + found.title, h.start + found.end));
  }

  /** What is left of a section once its header is cut out is what follows the header. */
  lemma SectionBody(s: string, h: Header, n: nat)
    requires MatchAt(s, h.start) == Some(h) && h.start < h.end <= n <= |s| && (n == |s| || (n > 0 && s[n-1] == '\n'))
    ensures WithoutFirst(s[h.start..n]) == s[h.end..n]
  {
    CutMatch(s, h, n);
    CutOut(s[h.start..n], Header(0, h.title - h.start, h.end - h.start));
    SliceTwice(s, h.start, h.end, n);
  }

  lemma SliceTwice(s: string, i: nat, j: nat, n: nat)
    requires i <= j <= n <= |s|
    ensures s[i..n][j - i..] == s[j..n]
  {
  }

  lemma CutOut(t: string, h: Header)
    requires h.start == 0 && h.end <= |t| && MatchAt(t, 0) == Some(h)
    ensures WithoutFirst(t) == t[h.end..]
  {
    assert FirstMatch(t, 0) == Some(h);
    assert t[..0] == [];
  }

  // ---------------------------------------------------------------- chunks

  datatype Chunk = Chunk(section: string, text: string)

  predicate HasText(c: Chunk) {
    c.text != []
  }

  /** Where section `i` ends: at the next header, or at the end. */
  function SectionEnd(body: string, hs: seq<Header>, i: nat): nat
    requires i < |hs|
  {
    if i + 1 < |hs| then hs[i + 1].start else |body|
  }

  const INTRO := "\U{ac1c}\U{c694}"

  /** Header `i` lies in order within its section. */
  ghost predicate FitsAt(body: string, hs: seq<Header>, i: int) {
    0 <= i < |hs| ==>
      hs[i].start <= hs[i].title <= hs[i].end <= SectionEnd(body, hs, i) <= |body| && hs[i].start < hs[i].end
  }

  ghost predicate Fits(body: string, hs: seq<Header>) {
    forall i :: FitsAt(body, hs, i)
  }

  lemma HeadersFit(body: string)
    ensures Fits(body, Headers(body, 0))
  {
    var hs := Headers(body, 0);
    HeadersPlaced(body, 0);
    forall i
      ensures FitsAt(body, hs, i)
    {
      if 0 <= i < |hs| {
        assert PlacedAt(body, 0, hs, i) && PlacedAt(body, 0, hs, i + 1);
        HeaderFits(body, hs[i]);
      }
    }
  }

  lemma HeaderFits(body: string, h: Header)
    requires MatchAt(body, h.start) == Some(h)
    ensures h.start <= h.title <= h.end
    ensures h.start == 0 || (h.start <= |body| && body[h.start - 1] == '\n')
  {
    MatchIsGreedy(body, h.start);
  }

  function SectionText(body: string, h: Header, end: nat): string
    requires h.start <= end <= |body|
  {
    Strip(WithoutFirst(body[h.start..end]))
  }

  /** What becomes of section `i`, before empty texts are left out. */
  function SectionChunk(body: string, hs: seq<Header>, i: nat): Chunk
    requires Fits(body, hs) && i < |hs|
  {
    assert FitsAt(body, hs, i);
    Chunk(Strip(body[hs[i].title..hs[i].end]), SectionText(body, hs[i], SectionEnd(body, hs, i)))
  }

  function Intro(body: string, hs: seq<Header>): string
    requires Fits(body, hs)
  {
    assert FitsAt(body, hs, 0);
    if hs == [] then body else body[..hs[0].start]
  }

  /** The introduction and the sections. */
  function RawChunks(body: string, hs: seq<Header>): (raw: seq<Chunk>)
    requires Fits(body, hs)
    ensures |raw| == |hs| + 1 && raw[0] == Chunk(INTRO, Strip(Intro(body, hs)))
    ensures forall i :: 0 < i < |raw| ==> raw[i] == SectionChunk(body, hs, i - 1)
  {
    [Chunk(INTRO, Strip(Intro(body, hs)))] + seq(|hs|, i requires 0 <= i < |hs| => SectionChunk(body, hs, i))
  }

  function Chunks(title: string, body: string): seq<Chunk> {
    HeadersFit(body);
    var hs := Headers(body, 0);
    Filter(if hs == [] then [Chunk(title, Strip(body))] else RawChunks(body, hs), HasText)
  }

  /** `chunk_body`, for a document titled `title`. */
  method ChunkBody(title: string, body: string) returns (chunks: seq<Chunk>)
    ensures chunks == Chunks(title, body)
  {
    var hs := Headers(body, 0);
    HeadersFit(body);
    if hs == [] {
      var text := Strip(body);
      FilterSnoc([], Chunk(title, text), HasText);
      assert [] + [Chunk(title, text)] == [Chunk(title, text)];
      return if text != [] then [Chunk(title, text)] else [];
    }
    chunks := ChunkSections(body, hs);
  }

  /** The introduction, then the loop over the headers. */
  method ChunkSections(body: string, hs: seq<Header>) returns (chunks: seq<Chunk>)
    requires Fits(body, hs) && 0 < |hs|
    ensures chunks == Filter(RawChunks(body, hs), HasText)
  {
    ghost var raw := RawChunks(body, hs);
    chunks := ChunkIntro(body, hs);
    FilterNext(raw, 0);
    for i := 0 to |hs|
      invariant chunks == Filter(raw[..i + 1], HasText)
    {
      var chunk := SectionChunk(body, hs, i);
      assert raw[i + 1] == chunk;
      FilterNext(raw, i + 1);
      if chunk.text != [] {
        chunks := chunks + [chunk];
      }
    }
    assert raw[..|hs| + 1] == raw;
  }

  lemma FilterNext(raw: seq<Chunk>, i: nat)
    requires i < |raw|
    ensures Filter(raw[..i + 1], HasText) == Filter(raw[..i], HasText) + if HasText(raw[i]) then [raw[i]] else []
  {
    FilterSnoc(raw[..i], raw[i], HasText);
    assert raw[..i + 1] == raw[..i] + [raw[i]];
  }

  method ChunkIntro(body: string, hs: seq<Header>) returns (chunks: seq<Chunk>)
    requires Fits(body, hs) && 0 < |hs|
    ensures chunks == if Strip(Intro(body, hs)) != [] then [Chunk(INTRO, Strip(Intro(body, hs)))] else []
  {
    assert FitsAt(body, hs, 0);
    chunks := [];
    if hs[0].start > 0 {
      var intro := Strip(body[..hs[0].start]);
      if intro != [] {
        chunks := [Chunk(INTRO, intro)];
      }
    } else {
      assert body[..0] == [];
    }
  }

  // ---------------------------------------------------------------- nothing is lost

  function Texts(chunks: seq<Chunk>): string {
    if chunks == [] then [] else chunks[0].text + Texts(chunks[1..])
  }

  lemma {:induction false} TextsOfFiltered(raw: seq<Chunk>)
    ensures Texts(Filter(raw, HasText)) == Texts(raw)
  {
    if raw == [] {
    } else {
      TextsOfFiltered(raw[1..]);
      if HasText(raw[0]) {
        assert ([raw[0]] + Filter(raw[1..], HasText))[1..] == Filter(raw[1..], HasText);
      }
    }
  }

  function Concat(pieces: seq<string>): string {
    if pieces == [] then [] else pieces[0] + Concat(pieces[1..])
  }

  /** Piece by piece the same characters, white space aside. */
  ghost predicate SameInk(chunk: Chunk, piece: string) {
    NonSpace(chunk.text) == NonSpace(piece)
  }

  lemma {:induction false} TextsKeep(raw: seq<Chunk>, pieces: seq<string>)
    requires |raw| == |pieces| && forall i :: 0 <= i < |raw| ==> SameInk(raw[i], pieces[i])
    ensures NonSpace(Texts(raw)) == NonSpace(Concat(pieces))
  {
    if raw == [] {
    } else {
      assert SameInk(raw[0], pieces[0]);
      TextsKeep(raw[1..], pieces[1..]);
      NonSpaceConcat(raw[0].text, Texts(raw[1..]));
      NonSpaceConcat(pieces[0], Concat(pieces[1..]));
    }
  }

  /** What stands after header `i`, in its section. */
  function After(body: string, hs: seq<Header>, i: nat): string
    requires Fits(body, hs) && i < |hs|
  {
    assert FitsAt(body, hs, i);
    body[hs[i].end..SectionEnd(body, hs, i)]
  }

  /** Section `i` with its header. */
  function Section(body: string, hs: seq<Header>, i: nat): string
    requires Fits(body, hs) && i < |hs|
  {
    assert FitsAt(body, hs, i);
    body[hs[i].start..SectionEnd(body, hs, i)]
  }

  /** The stretches of the body outside its headers. */
  function Outside(body: string, hs: seq<Header>): (pieces: seq<string>)
    requires Fits(body, hs)
    ensures |pieces| == |hs| + 1
  {
    [Intro(body, hs)] + seq(|hs|, i requires 0 <= i < |hs| => After(body, hs, i))
  }

  /** The sections from `i` on, headers and all. */
  function SectionsFrom(body: string, hs: seq<Header>, i: nat): seq<string>
    requires Fits(body, hs) && i <= |hs|
    decreases |hs| - i
  {
    if i == |hs| then [] else [Section(body, hs, i)] + SectionsFrom(body, hs, i + 1)
  }

  /** Sections follow one another without gap or overlap. */
  lemma {:induction false} SectionsCover(body: string, hs: seq<Header>, i: nat)
    requires Fits(body, hs) && i <= |hs|
    ensures (if i < |hs| then hs[i].start else |body|) <= |body|
    ensures Concat(SectionsFrom(body, hs, i)) == body[if i < |hs| then hs[i].start else |body|..]
    decreases |hs| - i
  {
    assert FitsAt(body, hs, i);
    if i < |hs| {
      SectionsCover(body, hs, i + 1);
      var end := SectionEnd(body, hs, i);
      ConcatCons(Section(body, hs, i), SectionsFrom(body, hs, i + 1));
      SliceJoin(body, hs[i].start, end);
    }
  }

  lemma ConcatCons(piece: string, rest: seq<string>)
    ensures Concat([piece] + rest) == piece + Concat(rest)
  {
    assert ([piece] + rest)[1..] == rest;
  }

  lemma SliceJoin(s: string, i: nat, j: nat)
    requires i <= j <= |s|
    ensures s[i..j] + s[j..] == s[i..]
  {
  }

  lemma SectionKeeps(body: string, i: nat)
    requires i < |Headers(body, 0)| && Fits(body, Headers(body, 0))
    ensures SameInk(SectionChunk(body, Headers(body, 0), i), After(body, Headers(body, 0), i))
  {
    var hs := Headers(body, 0);
    HeadersPlaced(body, 0);
    assert PlacedAt(body, 0, hs, i) && PlacedAt(body, 0, hs, i + 1) && FitsAt(body, hs, i);
    var end := SectionEnd(body, hs, i);
    if i + 1 < |hs| {
      HeaderFits(body, hs[i + 1]);
    }
    SectionBody(body, hs[i], end);
    StripKeeps(WithoutFirst(body[hs[i].start..end]));
  }

  /** The chunks keep every character that is neither white space nor part of a header, exactly
      once and in order, and add none. */
  lemma ChunksConserve(title: string, body: string)
    ensures Fits(body, Headers(body, 0))
    ensures NonSpace(Texts(Chunks(title, body))) == NonSpace(Concat(Outside(body, Headers(body, 0))))
  {
    var hs := Headers(body, 0);
    HeadersFit(body);
    StripKeeps(Intro(body, hs));
    if hs == [] {
      TextsOfFiltered([Chunk(title, Strip(body))]);
      TextsKeep([Chunk(title, Strip(body))], Outside(body, hs));
    } else {
      var raw, pieces := RawChunks(body, hs), Outside(body, hs);
      TextsOfFiltered(raw);
      forall i | 0 <= i < |raw|
        ensures SameInk(raw[i], pieces[i])
      {
        if i > 0 {
          SectionKeeps(body, i - 1);
        }
      }
      TextsKeep(raw, pieces);
    }
  }

  /** The body is exactly its introduction and its sections, in order: no gap, no overlap. */
  lemma SectionsPartition(body: string)
    ensures Fits(body, Headers(body, 0))
    ensures Intro(body, Headers(body, 0)) + Concat(SectionsFrom(body, Headers(body, 0), 0)) == body
  {
    var hs := Headers(body, 0);
    HeadersFit(body);
    SectionsCover(body, hs, 0);
    assert FitsAt(body, hs, 0);
  }

  ghost predicate Trimmed(c: Chunk) {
    c.text != [] && !IsSpace(c.text[0]) && !IsSpace(c.text[|c.text|-1])
  }

  /** No chunk is empty or has white space at its ends. */
  lemma ChunksTrimmed(title: string, body: string)
    ensures forall i :: 0 <= i < |Chunks(title, body)| ==> Trimmed(Chunks(title, body)[i])
  {
    var hs := Headers(body, 0);
    HeadersFit(body);
    var raw := if hs == [] then [Chunk(title, Strip(body))] else RawChunks(body, hs);
    forall i | 0 <= i < |raw|
      ensures HasText(raw[i]) ==> Trimmed(raw[i])
    {
      StripTrims(raw[i], if hs == [] then body else if i == 0 then Intro(body, hs) else Uncut(body, hs, i - 1));
    }
    FilteredTrimmed(raw);
  }

  function Uncut(body: string, hs: seq<Header>, i: nat): string
    requires Fits(body, hs) && i < |hs|
  {
    WithoutFirst(Section(body, hs, i))
  }

  lemma StripTrims(c: Chunk, s: string)
    requires c.text == Strip(s)
    ensures HasText(c) ==> Trimmed(c)
  {
    StripKeeps(s);
  }

  lemma {:induction false} FilteredTrimmed(raw: seq<Chunk>)
    requires forall i :: 0 <= i < |raw| ==> HasText(raw[i]) ==> Trimmed(raw[i])
    ensures forall i :: 0 <= i < |Filter(raw, HasText)| ==> Trimmed(Filter(raw, HasText)[i])
  {
    if raw == [] {
    } else {
      FilteredTrimmed(raw[1..]);
      assert HasText(raw[0]) ==> Trimmed(raw[0]);
    }
  }

  // ---------------------------------------------------------------- titles

  lemma {:induction false} StripLeftSplits(s: string) returns (front: string)
    ensures s == front + StripLeft(s) && Blank(front)
  {
    if s != [] && IsSpace(s[0]) {
      var rest := StripLeftSplits(s[1..]);
      front := [s[0]] + rest;
      assert s == [s[0]] + s[1..];
    } else {
      front := [];
    }
  }

  lemma {:induction false} StripRightSplits(s: string) returns (back: string)
    ensures s == StripRight(s) + back && Blank(back)
  {
    if s != [] && IsSpace(s[|s|-1]) {
      var rest := StripRightSplits(s[..|s|-1]);
      back := rest + [s[|s|-1]];
      assert s == s[..|s|-1] + [s[|s|-1]];
    } else {
      back := [];
    }
  }

  /** Stripping cuts white space off both ends and leaves what is between word for word. */
  lemma StripSplits(s: string) returns (front: string, back: string)
    ensures s == front + Strip(s) + back && Blank(front) && Blank(back)
  {
    front := StripLeftSplits(s);
    back := StripRightSplits(StripLeft(s));
    assert front + (Strip(s) + back) == front + Strip(s) + back;
  }

  ghost predicate HeaderLine(line: string, title: string, gap: string, tail: string) {
    line == "##" + gap + title + tail && gap != [] && Blank(gap) && Blank(tail)
  }

  lemma HeaderParts(s: string, h: Header)
    requires Accepts(s, h)
    ensures s[h.start..h.end] == "##" + s[h.start + 2..h.title] + s[h.title..h.end]
    ensures Blank(s[h.start + 2..h.title]) && s[h.start + 2..h.title] != [] && '\n' !in s[h.title..h.end]
  {
  }

  lemma PartOf(front: string, middle: string, back: string, c: char)
    requires c !in front + middle + back
    ensures c !in middle
  {
    forall k | 0 <= k < |middle|
      ensures middle[k] != c
    {
      assert (front + middle + back)[|front| + k] == middle[k];
    }
  }

  lemma HeaderTitle(s: string, h: Header) returns (gap: string, tail: string)
    requires Accepts(s, h)
    ensures HeaderLine(s[h.start..h.end], Strip(s[h.title..h.end]), gap, tail) && '\n' !in Strip(s[h.title..h.end])
  {
    var room, words := s[h.start + 2..h.title], s[h.title..h.end];
    HeaderParts(s, h);
    var front, back := StripSplits(words);
    PartOf(front, Strip(words), back, '\n');
    gap, tail := room + front, back;
    Regroup(room, front, Strip(words), back);
  }

  lemma Regroup(a: string, b: string, c: string, d: string)
    ensures "##" + a + (b + c + d) == "##" + (a + b) + c + d
  {
  }

  /** A section is named by what its header line says between the hashes and the end of the line,
      white space aside, in one line. */
  lemma SectionTitle(body: string, i: nat) returns (gap: string, tail: string)
    requires i < |Headers(body, 0)| && Fits(body, Headers(body, 0))
    ensures var h, title := Headers(body, 0)[i], SectionChunk(body, Headers(body, 0), i).section;
      && h.start <= h.end <= |body| && HeaderLine(body[h.start..h.end], title, gap, tail)
      && '\n' !in title && (title != [] ==> !IsSpace(title[0]) && !IsSpace(title[|title|-1]))
  {
    var h := Headers(body, 0)[i];
    HeadersPlaced(body, 0);
    assert PlacedAt(body, 0, Headers(body, 0), i);
    MatchIsGreedy(body, h.start);
    StripKeeps(body[h.title..h.end]);
    gap, tail := HeaderTitle(body, h);
  }

  /** Where a chunk comes from: without headers, from the body under the document's title; before
      the first header, from the introduction; else from a section, under its title. */
  lemma ChunkOrigin(title: string, body: string, c: Chunk)
    requires c in Chunks(title, body)
    ensures Fits(body, Headers(body, 0))
    ensures Headers(body, 0) == [] ==> c == Chunk(title, Strip(body))
    ensures Headers(body, 0) != [] ==>
      || c == Chunk(INTRO, Strip(Intro(body, Headers(body, 0))))
      || exists i :: 0 <= i < |Headers(body, 0)| && c == SectionChunk(body, Headers(body, 0), i)
  {
    var hs := Headers(body, 0);
    HeadersFit(body);
    var raw := if hs == [] then [Chunk(title, Strip(body))] else RawChunks(body, hs);
    var i := FilterFrom(raw, HasText, c);
    assert hs != [] && i > 0 ==> raw[i] == SectionChunk(body, hs, i - 1);
  }

  lemma {:induction false} FilterFrom<T>(items: seq<T>, keep: T -> bool, x: T) returns (i: nat)
    requires x in Filter(items, keep)
    ensures i < |items| && items[i] == x
  {
    if keep(items[0]) && items[0] == x {
      i := 0;
    } else {
      i := FilterFrom(items[1..], keep, x);
      i := i + 1;
    }
  }
}
