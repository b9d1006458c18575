/**
 The scanner: device-tree text to tokens. `Lex` says what the tokens of a text are;
 `Scan` is the single pass over an index that produces them.
 */
module DtsScanner {
  import opened Wrappers
  import opened DtsText

  datatype Kind = Word | Punct | Str

  datatype Token = Token(value: string, kind: Kind, line: nat)

  datatype ScanError = UnterminatedComment(line: nat) | UnterminatedString(line: nat)

  type Tokens = Result<seq<Token>, ScanError>

  const PUNCTUATION: string := "{};=<>[],:&"

  predicate IsPunct(c: char) {
    c in PUNCTUATION
  }

  predicate EndsWord(c: char) {
    IsSpace(c) || IsPunct(c) || c == '"' || c == '/'
  }

  /** `str.find`: the first occurrence at or after `from`, or -1. */
  function Find(s: string, pattern: string, from: nat): (at: int)
    ensures at >= 0 ==> from <= at <= |s| - |pattern| && pattern <= s[at..]
    ensures at >= 0 ==> forall i | from <= i < at :: !(pattern <= s[i..])
    ensures at < 0 ==> forall i | from <= i <= |s| :: !(pattern <= s[i..])
    decreases |s| - from
  {
    if from > |s| then -1
    else if pattern <= s[from..] then from
    else Find(s, pattern, from + 1)
  }

  function CountNewlines(s: string): nat {
    if s == [] then 0 else (if s[0] == '\n' then 1 else 0) + CountNewlines(s[1..])
  }

  function WordLength(s: string): (k: nat)
    ensures k <= |s|
    ensures forall i | 0 <= i < k :: !EndsWord(s[i])
    ensures k < |s| ==> EndsWord(s[k])
  {
    if s == [] || EndsWord(s[0]) then 0 else 1 + WordLength(s[1..])
  }

  /** The extent of a string body: raw characters up to the closing quote, and the newlines counted. */
  datatype Body = Body(length: nat, newlines: nat)

  /** Characters one turn of the string loop takes, and newlines it counts. */
  function BodyStep(s: string): (k: Body)
    requires s != []
    ensures 1 <= k.length <= |s|
  {
    if s[0] == '\\' && |s| > 1 then Body(2, 0) else Body(1, if s[0] == '\n' then 1 else 0)
  }

  function Extend(b: Option<Body>, more: Body): Option<Body> {
    match b
    case Some(b) => Some(Body(b.length + more.length, b.newlines + more.newlines))
    case None => None
  }

  function StringBody(s: string): (b: Option<Body>)
    ensures b.Some? ==> b.value.length < |s|
    decreases |s|
  {
    if s == [] then None
    else if s[0] == '"' then Some(Body(0, 0))
    else
      var k := BodyStep(s);
      Extend(StringBody(s[k.length..]), k)
  }

  function Prepend(ts: seq<Token>, r: Tokens): Tokens {
    match r
    case Ok(us) => Ok(ts + us)
    case Err(_) => r
  }

  /** What one turn of the scanner's loop does: skip, emit a token, stop, or fail. */
  datatype Lexeme =
    | Skip(taken: nat, lines: nat)
    | Emit(value: string, kind: Kind, taken: nat, lines: nat)
    | Stop
    | BadComment
    | BadString

  function Comment(s: string): (x: Lexeme)
    requires "//" <= s || "/*" <= s
    ensures x.Skip? || x.Stop? || x.BadComment?
    ensures x.Skip? ==> 1 <= x.taken <= |s|
  {
    if "//" <= s then
      var end := Find(s, "\n", 2);
      if end < 0 then Stop else Skip(end + 1, 1)
    else
      var end := Find(s, "*/", 2);
      if end < 0 then BadComment else Skip(end + 2, CountNewlines(s[..end + 2]))
  }

  function NextLexeme(s: string): (x: Lexeme)
    requires s != []
    ensures x.Skip? || x.Emit? ==> 1 <= x.taken <= |s|
  {
    if IsSpace(s[0]) then Skip(1, if s[0] == '\n' then 1 else 0)
    else if "//" <= s || "/*" <= s then Comment(s)
    else if s[0] == '"' then
      match StringBody(s[1..])
      case None => BadString
      case Some(b) => Emit(Decode(s[1..1 + b.length]), Str, b.length + 2, b.newlines)
    else if IsPunct(s[0]) || s[0] == '/' then Emit([s[0]], Punct, 1, 0)
    else Emit(s[..WordLength(s)], Word, WordLength(s), 0)
  }

  function Emitted(x: Lexeme, line: nat): seq<Token> {
    if x.Emit? then [Token(x.value, x.kind, line)] else []
  }

  function Lex(s: string, line: nat): Tokens
    decreases |s|
  {
    if s == [] then Ok([])
    else
      var x := NextLexeme(s);
      if x.Skip? || x.Emit? then Prepend(Emitted(x, line), Lex(s[x.taken..], line + x.lines))
      else if x.BadComment? then Err(UnterminatedComment(line))
      else if x.BadString? then Err(UnterminatedString(line))
      else Ok([])
  }

  /** The branches of one turn, on the text from the current position. */
  method ReadLexeme(rest: string) returns (x: Lexeme)
    requires rest != []
    ensures x == NextLexeme(rest)
  {
    hide Find, CountNewlines, Decode, StringBody, WordLength;
    var c := rest[0];
    if IsSpace(c) {
      return Skip(1, if c == '\n' then 1 else 0);
    }
    if "//" <= rest {
      var end := Find(rest, "\n", 2);
      return if end < 0 then Stop else Skip(end + 1, 1);
    }
    if "/*" <= rest {
      var end := Find(rest, "*/", 2);
      return if end < 0 then BadComment else Skip(end + 2, CountNewlines(rest[..end + 2]));
    }
    if c == '"' {
      var end, lines := ScanString(rest, 1);
      if end < 0 {
        return BadString;
      }
      var value := DecodeDtsString(rest[1..end]);
      return Emit(value, Str, end + 1, lines);
    }
    if IsPunct(c) || c == '/' {
      return Emit([c], Punct, 1, 0);
    }
    // The word is never empty: the scanner's fallback for that case is not reached.
    var taken := ScanWord(rest);
    x := Emit(rest[..taken], Word, taken, 0);
  }

  method Scan(text: string) returns (r: Tokens)
    ensures r == Lex(text, 1)
  {
    hide Lex, NextLexeme;
    var tokens: seq<Token> := [];
    var index, line: nat := 0, 1;
    assert text[0..] == text;
    PrependNothing(Lex(text, 1));
    while index < |text|
      invariant 0 <= index <= |text|
      invariant Lex(text, 1) == Prepend(tokens, Lex(text[index..], line))
    {
      var x := ReadLexeme(text[index..]);
      LexStep(text, tokens, index, line);
      match x {
        case Skip(taken, lines) =>
          assert tokens + [] == tokens;
          line, index := line + lines, index + taken;
        case Emit(value, kind, taken, lines) =>
          tokens := tokens + [Token(value, kind, line)];
          line, index := line + lines, index + taken;
        case Stop =>
          return Ok(tokens);
        case BadComment =>
          return Err(UnterminatedComment(line));
        case BadString =>
          return Err(UnterminatedString(line));
      }
    }
    assert text[index..] == [];
    LexNothing(tokens, line);
    return Ok(tokens);
  }

  /** One turn of the scanner's loop, whatever kind of lexeme comes next. */
  lemma LexStep(text: string, tokens: seq<Token>, index: nat, line: nat)
    requires index < |text|
    requires Lex(text, 1) == Prepend(tokens, Lex(text[index..], line))
    ensures
      var x := NextLexeme(text[index..]);
      && (x.Skip? || x.Emit? ==>
            && index + x.taken <= |text|
            && Lex(text, 1) == Prepend(tokens + Emitted(x, line), Lex(text[index + x.taken..], line + x.lines)))
      && (x.Stop? ==> Lex(text, 1) == Ok(tokens))
      && (x.BadComment? ==> Lex(text, 1) == Err(UnterminatedComment(line)))
      && (x.BadString? ==> Lex(text, 1) == Err(UnterminatedString(line)))
  {
    hide NextLexeme;
    var rest := text[index..];
    var x := NextLexeme(rest);
    if x.Skip? || x.Emit? {
      assert text[index + x.taken..] == rest[x.taken..];
      AppendTokens(tokens, Emitted(x, line), Lex(rest[x.taken..], line + x.lines));
    } else {
      assert tokens + [] == tokens;
    }
  }

  lemma LexNothing(tokens: seq<Token>, line: nat)
    ensures Prepend(tokens, Lex([], line)) == Ok(tokens)
  {
    assert tokens + [] == tokens;
  }

  lemma StringBodyAdvance(text: string, start: nat, index: nat, lines: nat)
    requires start <= index < |text| && text[index] != '"'
    requires StringBody(text[start..]) == Extend(StringBody(text[index..]), Body(index - start, lines))
    ensures var k := BodyStep(text[index..]);
      && index + k.length <= |text|
      && StringBody(text[start..]) ==
         Extend(StringBody(text[index + k.length..]), Body(index + k.length - start, lines + k.newlines))
  {
    hide StringBody, BodyStep;
    var rest := text[index..];
    var k := BodyStep(rest);
    assert text[index + k.length..] == rest[k.length..];
    StringBodyUnfold(rest);
  }

  lemma StringBodyUnfold(s: string)
    requires s != [] && s[0] != '"'
    ensures StringBody(s) == Extend(StringBody(s[BodyStep(s).length..]), BodyStep(s))
  {
  }

  lemma StringBodyEnd(text: string, start: nat, index: nat, lines: nat)
    requires start <= index <= |text| && (index < |text| ==> text[index] == '"')
    requires StringBody(text[start..]) == Extend(StringBody(text[index..]), Body(index - start, lines))
    ensures StringBody(text[start..]) == if index < |text| then Some(Body(index - start, lines)) else None
  {
  }

  /** The inner loop over a quoted string; `end` is the closing quote, or -1. */
  method ScanString(text: string, start: nat) returns (end: int, lines: nat)
    requires start <= |text|
    ensures end < 0 ==> StringBody(text[start..]) == None
    ensures end >= 0 ==> start <= end < |text| && StringBody(text[start..]) == Some(Body(end - start, lines))
  {
    hide StringBody;
    var index := start;
    lines := 0;
    while index < |text| && text[index] != '"'
      invariant start <= index <= |text|
      invariant StringBody(text[start..]) == Extend(StringBody(text[index..]), Body(index - start, lines))
    {
      StringBodyAdvance(text, start, index, lines);
      if text[index] == '\\' && index + 1 < |text| {
        index := index + 2;
      } else {
        if text[index] == '\n' {
          lines := lines + 1;
        }
        index := index + 1;
      }
    }
    StringBodyEnd(text, start, index, lines);
    end := if index < |text| then index else -1;
  }

  /** The inner loop over a word. */
  method ScanWord(text: string) returns (index: nat)
    ensures index == WordLength(text)
  {
    index := 0;
    while index < |text| && !EndsWord(text[index])
      invariant index <= |text|
      invariant WordLength(text) == index + WordLength(text[index..])
    {
      assert text[index + 1..] == text[index..][1..];
      index := index + 1;
    }
  }

  lemma PrependNothing(r: Tokens)
    ensures Prepend([], r) == r
  {
    if r.Ok? {
      assert [] + r.value == r.value;
    }
  }

  lemma AppendTokens(ts: seq<Token>, us: seq<Token>, r: Tokens)
    ensures Prepend(ts, Prepend(us, r)) == Prepend(ts + us, r)
  {
    if r.Ok? {
      assert ts + (us + r.value) == ts + us + r.value;
    }
  }
}
