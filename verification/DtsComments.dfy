/** Comments and line breaks: the tokens of a source do not depend on them, their line numbers count them. */
module DtsComments {
  import opened Wrappers
  import opened DtsText
  import opened DtsScanner
  import opened DtsValueRoundTrip
  import opened DtsSource

  // ----- one comment -----

  /** The text has no comment end, nor does it complete one with the end right behind it. */
  predicate NeverCloses(body: string) {
    forall i | 0 <= i < |body| :: !(body[i] == '*' && (if i + 1 < |body| then body[i + 1] else '*') == '/')
  }

  predicate IsLineComment(c: string) {
    |c| >= 3 && c[..2] == "//" && c[|c| - 1] == '\n' && '\n' !in c[..|c| - 1]
  }

  predicate IsBlockComment(c: string) {
    |c| >= 4 && c[..2] == "/*" && c[|c| - 2..] == "*/" && NeverCloses(c[2..|c| - 2])
  }

  predicate IsComment(c: string) {
    IsLineComment(c) || IsBlockComment(c)
  }

  lemma FoundAt(s: string, pattern: string, from: nat, at: nat)
    requires from <= at <= |s| && pattern <= s[at..]
    requires forall i | from <= i < at :: !(pattern <= s[i..])
    ensures Find(s, pattern, from) == at
  {
    hide Find;
  }

  lemma NotFound(s: string, pattern: string, from: nat)
    requires forall i | from <= i <= |s| :: !(pattern <= s[i..])
    ensures Find(s, pattern, from) < 0
  {
  }

  lemma {:induction false} NoNewlines(s: string)
    requires '\n' !in s
    ensures CountNewlines(s) == 0
  {
    if s != [] {
      assert s[0] in s;
      NoNewlines(s[1..]);
    }
  }

  lemma {:induction false} NewlinesConcat(a: string, b: string)
    ensures CountNewlines(a + b) == CountNewlines(a) + CountNewlines(b)
  {
    if a == [] {
      assert a + b == b;
    } else {
      NewlinesConcat(a[1..], b);
      assert (a + b)[1..] == a[1..] + b;
    }
  }

  /** The scanner skips a comment and counts its line breaks. */
  lemma CommentIsSkipped(c: string, rest: string, line: nat)
    requires IsComment(c)
    ensures Lex(c + rest, line) == Lex(rest, line + CountNewlines(c))
  {
    CommentLexeme(c, rest);
    hide NextLexeme, CountNewlines, IsComment;
    assert (c + rest)[|c|..] == rest;
    PrependNothing(Lex(rest, line + CountNewlines(c)));
  }

  lemma CommentLexeme(c: string, rest: string)
    requires IsComment(c)
    ensures c != [] && NextLexeme(c + rest) == Skip(|c|, CountNewlines(c))
  {
    hide NextLexeme, CountNewlines, NeverCloses;
    if IsLineComment(c) {
      LineFound(c, rest);
      LineLexeme(c + rest, |c|);
    } else {
      BlockFound(c, rest);
      BlockLexeme(c + rest, |c|);
      assert (c + rest)[..|c|] == c;
    }
  }

  lemma LineLexeme(s: string, n: nat)
    requires "//" <= s && Find(s, "\n", 2) == n - 1 && n > 0
    ensures NextLexeme(s) == Skip(n, 1)
  {
    hide Find, CountNewlines, StringBody, Decode, WordLength;
    assert s[0] == '/' && !IsSpace(s[0]);
  }

  lemma BlockLexeme(s: string, n: nat)
    requires "/*" <= s && !("//" <= s) && Find(s, "*/", 2) == n - 2 && 2 <= n <= |s|
    ensures NextLexeme(s) == Skip(n, CountNewlines(s[..n]))
  {
    hide Find, CountNewlines, StringBody, Decode, WordLength;
    assert s[0] == '/' && !IsSpace(s[0]);
  }

  lemma LineFound(c: string, rest: string)
    requires IsLineComment(c)
    ensures "//" <= c + rest && Find(c + rest, "\n", 2) == |c| - 1 && CountNewlines(c) == 1
  {
    var s, n := c + rest, |c| - 1;
    assert s[0] == c[..2][0] && s[1] == c[..2][1];
    forall i | 2 <= i < n ensures !("\n" <= s[i..]) {
      assert s[i] == c[..n][i];
    }
    assert "\n" <= s[n..];
    FoundAt(s, "\n", 2, n);
    NewlinesConcat(c[..n], c[n..]);
    NoNewlines(c[..n]);
    assert c == c[..n] + c[n..] && c[n..] == "\n";
    assert c[n..][1..] == [];
  }

  lemma BlockFound(c: string, rest: string)
    requires IsBlockComment(c)
    ensures "/*" <= c + rest && !("//" <= c + rest) && Find(c + rest, "*/", 2) == |c| - 2
  {
    var s, n := c + rest, |c| - 2;
    var body := c[2..n];
    assert s[0] == c[..2][0] && s[1] == c[..2][1];
    assert c[n..][0] == c[n] && c[n..][1] == c[n + 1];
    forall i | 2 <= i < n ensures !("*/" <= s[i..]) {
      assert s[i] == body[i - 2];
      assert s[i + 1] == if i + 1 < n then body[i - 1] else '*';
      assert s[i..][0] == s[i] && s[i..][1] == s[i + 1];
    }
    assert "*/" <= s[n..];
    FoundAt(s, "*/", 2, n);
  }

  /** A line comment may also run to the end of the source. */
  lemma OpenLineComment(body: string, line: nat)
    requires '\n' !in body
    ensures Lex("//" + body, line) == Ok([])
  {
    hide CountNewlines, StringBody, Decode, WordLength;
    var s := "//" + body;
    forall i | 2 <= i <= |s| ensures !("\n" <= s[i..]) {
      assert i < |s| ==> s[i] == body[i - 2];
    }
    NotFound(s, "\n", 2);
    hide Find;
    assert NextLexeme(s) == Stop;
  }

  /** A block comment may not. */
  lemma OpenBlockComment(body: string, line: nat)
    requires forall i | 0 <= i < |body| - 1 :: !(body[i] == '*' && body[i + 1] == '/')
    ensures Lex("/*" + body, line) == Err(UnterminatedComment(line))
  {
    hide CountNewlines, StringBody, Decode, WordLength;
    var s := "/*" + body;
    forall i | 2 <= i <= |s| ensures !("*/" <= s[i..]) {
      if i + 1 < |s| {
        assert s[i] == body[i - 2] && s[i + 1] == body[i - 1];
        assert s[i..][0] == s[i] && s[i..][1] == s[i + 1];
      }
    }
    NotFound(s, "*/", 2);
    hide Find;
    assert s[0] == '/' && s[1] == '*' && "/*" <= s && !("//" <= s);
    assert NextLexeme(s) == BadComment;
  }

  const SPACES: seq<char> := [
    '\U{09}', '\U{0A}', '\U{0B}', '\U{0C}', '\U{0D}', '\U{1C}', '\U{1D}', '\U{1E}', '\U{1F}', '\U{20}', '\U{85}',
    '\U{A0}', '\U{1680}', '\U{2000}', '\U{2001}', '\U{2002}', '\U{2003}', '\U{2004}', '\U{2005}', '\U{2006}',
    '\U{2007}', '\U{2008}', '\U{2009}', '\U{200A}', '\U{2028}', '\U{2029}', '\U{202F}', '\U{205F}', '\U{3000}']

  /** The characters of the list are skipped, and a line feed among them is counted; a word holds any other. */
  lemma SpaceIsSkipped(c: char, rest: string, line: nat)
    ensures c in SPACES ==> Lex([c] + rest, line) == Lex(rest, if c == '\n' then line + 1 else line)
    ensures IsWord([c]) <==> c !in SPACES && c !in "{};=<>[],:&\"/"
  {
    SpacesExactly(c);
    hide StringBody, Find, CountNewlines, Decode, WordLength, IsSpace;
    var s := [c] + rest;
    assert s[1..] == rest;
    PrependNothing(Lex(rest, if c == '\n' then line + 1 else line));
    assert c in [c];
  }

  lemma SpacesExactly(c: char)
    ensures IsSpace(c) <==> c in SPACES
  {
    SpacesAreSpace(c);
    if IsSpace(c) {
      SpaceIsListed(c);
    }
    hide IsSpace;
  }

  lemma SpacesAreSpace(c: char)
    ensures c in SPACES ==> IsSpace(c)
  {
    if c in SPACES {
      var i :| 0 <= i < |SPACES| && SPACES[i] == c;
      SpaceAt(i);
    }
  }

  lemma SpaceAt(i: nat)
    requires i < |SPACES|
    ensures IsSpace(SPACES[i])
  {
  }

  lemma SpaceIsListed(c: char)
    requires IsSpace(c)
    ensures c in SPACES
  {
    var i :=
      if c <= '\U{0D}' then c as int - 9
      else if c <= '\U{20}' then c as int - 0x1C + 5
      else if c == '\U{85}' then 10
      else if c == '\U{A0}' then 11
      else if c == '\U{1680}' then 12
      else if c <= '\U{200A}' then c as int - 0x2000 + 13
      else if c == '\U{2028}' then 24
      else if c == '\U{2029}' then 25
      else if c == '\U{202F}' then 26
      else if c == '\U{205F}' then 27
      else 28;
    assert 0 <= i < 29 && SPACES[i] == c;
  }

  lemma {:induction false} RawBody(p: string, rest: string)
    requires '"' !in p && '\\' !in p
    ensures StringBody(p + "\"" + rest) == Some(Body(|p|, CountNewlines(p)))
  {
    var s := p + "\"" + rest;
    if p == [] {
      StringBodyClosed(s);
    } else {
      hide StringBody;
      assert s[0] == p[0] && p[0] in p;
      assert s[1..] == p[1..] + "\"" + rest;
      RawBody(p[1..], rest);
      StringBodyUnfold(s);
      assert BodyStep(s) == Body(1, if p[0] == '\n' then 1 else 0);
    }
  }

  /** A quoted text without quotes and escapes is one string token, and its line breaks are counted. */
  lemma RawStringIsToken(p: string, rest: string, line: nat)
    requires '"' !in p && '\\' !in p
    ensures Lex("\"" + p + "\"" + rest, line) == Prepend([Token(p, Str, line)], Lex(rest, line + CountNewlines(p)))
  {
    hide Lex, NextLexeme, CountNewlines, StringBody, Decode;
    var s := "\"" + p + "\"" + rest;
    RawBody(p, rest);
    RawDecodes(p);
    RawSlices(p, rest);
    RawLexeme(s, p, CountNewlines(p));
    EmitStep(s, Token(p, Str, line), |p| + 2, CountNewlines(p));
  }

  lemma RawDecodes(p: string)
    requires '\\' !in p
    ensures Decode(p) == p
  {
    DecodePlain(p, []);
    DecodeNothing();
    assert p + [] == p;
  }

  lemma RawSlices(p: string, rest: string)
    ensures
      var s := "\"" + p + "\"" + rest;
      s[0] == '"' && s[1..] == p + "\"" + rest && s[1..1 + |p|] == p && s[|p| + 2..] == rest
  {
  }

  lemma RawLexeme(s: string, p: string, lines: nat)
    requires s != [] && s[0] == '"' && StringBody(s[1..]) == Some(Body(|p|, lines))
    requires |s| >= |p| + 2 && s[1..1 + |p|] == p && Decode(p) == p
    ensures NextLexeme(s) == Emit(p, Str, |p| + 2, lines)
  {
    hide StringBody, Find, CountNewlines, Decode, WordLength;
    assert !IsSpace(s[0]) && !("//" <= s) && !("/*" <= s);
  }

  lemma EmitStep(s: string, t: Token, taken: nat, lines: nat)
    requires s != [] && NextLexeme(s) == Emit(t.value, t.kind, taken, lines)
    ensures taken <= |s| && Lex(s, t.line) == Prepend([t], Lex(s[taken..], t.line + lines))
  {
    hide NextLexeme;
  }

  // ----- line numbers -----

  function Later(t: Token, k: nat): Token {
    t.(line := t.line + k)
  }

  function AllLater(ts: seq<Token>, k: nat): seq<Token> {
    seq(|ts|, i requires 0 <= i < |ts| => Later(ts[i], k))
  }

  /** The same tokens, or the same error, `k` lines further down. */
  function Shifted(r: Tokens, k: nat): Tokens {
    match r
    case Ok(ts) => Ok(AllLater(ts, k))
    case Err(UnterminatedComment(line)) => Err(UnterminatedComment(line + k))
    case Err(UnterminatedString(line)) => Err(UnterminatedString(line + k))
  }

  /** What a text scans to does not depend on the line it starts on, but for the line numbers. */
  lemma {:induction false} LinesShift(s: string, line: nat, k: nat)
    ensures Lex(s, line + k) == Shifted(Lex(s, line), k)
    decreases |s|
  {
    hide NextLexeme;
    if s != [] {
      var x := NextLexeme(s);
      if x.Skip? || x.Emit? {
        LinesShift(s[x.taken..], line + x.lines, k);
        assert line + k + x.lines == line + x.lines + k;
        assert AllLater(Emitted(x, line), k) == Emitted(x, line + k);
        ShiftPrepend(Emitted(x, line), Lex(s[x.taken..], line + x.lines), k);
      }
    }
    assert AllLater([], k) == [];
  }

  lemma ShiftPrepend(ts: seq<Token>, r: Tokens, k: nat)
    ensures Shifted(Prepend(ts, r), k) == Prepend(AllLater(ts, k), Shifted(r, k))
  {
    if r.Ok? {
      assert AllLater(ts + r.value, k) == AllLater(ts, k) + AllLater(r.value, k);
    }
  }

  // ----- a comment between two tokens -----

  /** Whatever delimiter follows, the text scans to these tokens and ends on line `end`. */
  ghost predicate ScansUpTo(a: string, ts: seq<Token>, line: nat, end: nat) {
    forall rest | EndsHere(rest) :: Lex(a + rest, line) == Prepend(ts, Lex(rest, end))
  }

  lemma WordScans(w: string, line: nat)
    requires IsWord(w)
    ensures ScansUpTo(w, [Token(w, Word, line)], line, line)
  {
    hide Lex, IsWord;
    forall rest | EndsHere(rest) ensures Lex(w + rest, line) == Prepend([Token(w, Word, line)], Lex(rest, line)) {
      LexWord(w, rest, line);
    }
  }

  lemma PrintedScans(a: string, ts: seq<Token>, line: nat)
    requires ScansTo(a, ts, line)
    ensures ScansUpTo(a, ts, line, line)
  {
    hide Lex;
  }

  lemma ScansConcatenated(a: string, ta: seq<Token>, b: string, tb: seq<Token>, line: nat, middle: nat, end: nat)
    requires ScansUpTo(a, ta, line, middle) && ScansUpTo(b, tb, middle, end) && b != [] && EndsHere(b)
    ensures ScansUpTo(a + b, ta + tb, line, end)
  {
    hide Lex;
    forall rest | EndsHere(rest) ensures Lex(a + b + rest, line) == Prepend(ta + tb, Lex(rest, end)) {
      assert a + b + rest == a + (b + rest);
      assert EndsHere(b + rest);
      AppendTokens(ta, tb, Lex(rest, end));
    }
  }

  /**
   A comment between two tokens changes nothing but the line numbers behind it, which count its line
   breaks; where it stands, a space would do.
   */
  lemma CommentBetweenTokens(a: string, ts: seq<Token>, line: nat, end: nat, c: string, b: string)
    requires ScansUpTo(a, ts, line, end) && IsComment(c)
    ensures Lex(a + " " + b, line) == Prepend(ts, Lex(b, end))
    ensures Lex(a + c + b, line) == Prepend(ts, Shifted(Lex(b, end), CountNewlines(c)))
  {
    hide Lex, IsComment, CountNewlines, Shifted, ScansUpTo, EndsHere, Prepend;
    CommentStartsClear(c);
    SpaceStartsClear();
    UpTo(a, ts, line, end, " ", b);
    UpTo(a, ts, line, end, c, b);
    LexSpace(b, end);
    CommentIsSkipped(c, b, end);
    LinesShift(b, end, CountNewlines(c));
  }

  lemma UpTo(a: string, ts: seq<Token>, line: nat, end: nat, c: string, b: string)
    requires ScansUpTo(a, ts, line, end) && c != [] && EndsHere(c)
    ensures Lex(a + c + b, line) == Prepend(ts, Lex(c + b, end))
  {
    hide Lex;
    assert (c + b)[0] == c[0] && EndsHere(c + b);
    assert a + c + b == a + (c + b);
  }

  lemma SpaceStartsClear()
    ensures EndsHere(" ")
  {
  }

  lemma CommentStartsClear(c: string)
    requires IsComment(c)
    ensures c != [] && EndsHere(c)
  {
    assert c[0] == c[..2][0] == '/';
  }

  /** Two words with a comment between them are two tokens. */
  lemma WordsApart(v: string, c: string, w: string, line: nat)
    requires IsWord(v) && IsWord(w) && IsComment(c)
    ensures Lex(v + c + w, line) == Ok([Token(v, Word, line), Token(w, Word, line + CountNewlines(c))])
  {
    hide Lex, IsWord, IsComment, CountNewlines;
    WordScans(v, line);
    CommentBetweenTokens(v, [Token(v, Word, line)], line, line, c, w);
    assert w + [] == w;
    LexWord(w, [], line);
    LexNothing([Token(w, Word, line)], line);
    assert AllLater([Token(w, Word, line)], CountNewlines(c)) == [Token(w, Word, line + CountNewlines(c))];
    assert [Token(v, Word, line)] + [Token(w, Word, line + CountNewlines(c))]
        == [Token(v, Word, line), Token(w, Word, line + CountNewlines(c))];
  }
}
