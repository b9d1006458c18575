/** Printing a property value, scanning the text and parsing the tokens returns the value. */
module DtsValueRoundTrip {
  import opened Wrappers
  import opened DtsText
  import opened DtsScanner
  import opened DtsValues

  /** The value is unchanged by print, scan, parse. */
  predicate ReadsBack(parts: seq<Part>) {
    var ts := Lex(PartsText(parts), 1);
    ts.Ok? && ParseParts(ts.value) == parts
  }

  predicate IsWord(w: string) {
    w != [] && forall c | c in w :: !EndsWord(c)
  }

  predicate PrintableAtom(a: Atom) {
    match a
    case Number(n) => n >= 0
    case RefName(l) => IsWord(l)
    case RawAtom(t) => IsWord(t) && ParseInt(t) == None
    case MissingLabel => false
  }

  /** Two lower-case digits, or a word that is not taken for a byte and so kept as it is. */
  predicate PrintableByte(b: string) {
    IsWord(b) && (IsHexByte(b) ==> IsPlainByte(b))
  }

  predicate PrintableString(s: string) {
    forall c | c in s :: Supported(c)
  }

  /** Tokens are tested by value: these three would be taken for punctuation. */
  predicate TakenForPunct(s: string) {
    s in {",", "<", "["}
  }

  predicate PrintablePart(p: Part) {
    match p
    case Cells(atoms) => forall a | a in atoms :: PrintableAtom(a)
    case Strings(items) =>
      items != [] && (forall s | s in items :: PrintableString(s)) && !TakenForPunct(items[0])
    case Bytes(items) => forall b | b in items :: PrintableByte(b)
    case Raw(items) => items != [] && forall w | w in items :: IsWord(w)
  }

  /** Adjacent string lists, or text after bare words, would be read as one part. */
  predicate StaysApart(p: Part, next: Part) {
    && (p.Strings? ==> !next.Strings?)
    && (p.Raw? ==> next.Cells? || next.Bytes?)
  }

  predicate PrintableValue(parts: seq<Part>) {
    && (forall p | p in parts :: PrintablePart(p))
    && (forall i | 0 < i < |parts| :: StaysApart(parts[i - 1], parts[i]))
  }

  // ----- what is read in place of what was printed -----

  /** A part whose labels and bare texts are words; its numbers and strings may be anything. */
  predicate PlainPart(p: Part) {
    match p
    case Cells(atoms) => forall a | a in atoms :: PlainAtom(a)
    case Strings(items) => true
    case Bytes(items) => forall b | b in items :: IsWord(b)
    case Raw(items) => forall w | w in items :: IsWord(w)
  }

  predicate PlainAtom(a: Atom) {
    match a
    case RefName(l) => IsWord(l)
    case RawAtom(t) => IsWord(t)
    case _ => true
  }

  /** The string a quoted string decodes to. */
  function Heard(s: string): string {
    Decode(Escape(s))
  }

  /** The part with its strings as the scanner delivers them. */
  function Spoken(p: Part): Part {
    if p.Strings? then Strings(Map(Heard, p.items)) else p
  }

  /** The atom read in a cell list where `a` was printed. */
  function HeardAtom(a: Atom): Atom {
    if a.RefName? then a
    else
      match ParseInt(AtomText(a))
      case Some(n) => Number(n)
      case None => RawAtom(AtomText(a))
  }

  lemma AtomKeptExactly(a: Atom)
    requires PlainAtom(a)
    ensures HeardAtom(a) == a <==> PrintableAtom(a)
  {
    if a.Number? {
      PrintedNumberReadsBack(a.n);
    }
  }

  lemma ByteKeptExactly(b: string)
    requires IsWord(b)
    ensures NormaliseByte(b) == b <==> PrintableByte(b)
  {
    if IsPlainByte(b) {
      PlainByteStable(b);
    } else if IsHexByte(b) {
      NormalBytesArePlain(b);
    }
  }

  lemma NormalBytesArePlain(b: string)
    requires IsHexByte(b)
    ensures IsPlainByte(NormaliseByte(b))
  {
    hide Numeral;
  }

  lemma {:induction false} HeardIsPrintable(s: string)
    ensures PrintableString(Heard(s))
  {
    hide Escape, Decode;
    if s == [] {
      NothingHeard();
    } else {
      EscapeUnfold(s);
      DecodeEscapedChar(s[0], Escape(s[1..]));
      DecodedIsPrintable(s[0]);
      HeardIsPrintable(s[1..]);
    }
  }

  lemma NothingHeard()
    ensures Heard("") == ""
  {
  }

  lemma EscapeUnfold(s: string)
    requires s != []
    ensures Escape(s) == EscapeChar(s[0]) + Escape(s[1..])
  {
  }

  lemma DecodedIsPrintable(c: char)
    ensures PrintableString(Decoded(c))
  {
  }

  lemma {:induction false} MapIsIdentity<T>(f: T -> T, items: seq<T>)
    ensures Map(f, items) == items <==> forall x | x in items :: f(x) == x
  {
    if Map(f, items) == items {
      forall x | x in items ensures f(x) == x {
        var i :| 0 <= i < |items| && items[i] == x;
        assert Map(f, items)[i] == f(items[i]);
      }
    }
  }

  lemma StringsKeptExactly(items: seq<string>)
    ensures Map(Heard, items) == items <==> forall s | s in items :: PrintableString(s)
  {
    MapIsIdentity(Heard, items);
    forall s | s in items ensures Heard(s) == s <==> PrintableString(s) {
      EscapedStringReadsBack(s);
    }
  }

  lemma PrintableIsSpoken(p: Part)
    requires PrintablePart(p)
    ensures PlainPart(p) && Spoken(p) == p
  {
    if p.Strings? {
      StringsKeptExactly(p.items);
    }
  }

  // ----- the tokens a printed value scans to -----

  function AtomTokens(a: Atom, line: nat): seq<Token> {
    match a
    case RefName(l) => [Token("&", Punct, line), Token(l, Word, line)]
    case _ => [Token(AtomText(a), Word, line)]
  }

  function AtomsTokens(atoms: seq<Atom>, line: nat): seq<Token> {
    if atoms == [] then [] else AtomTokens(atoms[0], line) + AtomsTokens(atoms[1..], line)
  }

  function WordsTokens(words: seq<string>, line: nat): seq<Token> {
    if words == [] then [] else [Token(words[0], Word, line)] + WordsTokens(words[1..], line)
  }

  function StringsTokens(items: seq<string>, line: nat): seq<Token> {
    if items == [] then []
    else if |items| == 1 then [Token(items[0], Str, line)]
    else [Token(items[0], Str, line), Token(",", Punct, line)] + StringsTokens(items[1..], line)
  }

  function PartTokens(p: Part, line: nat): seq<Token> {
    match p
    case Cells(atoms) => [Token("<", Punct, line)] + (AtomsTokens(atoms, line) + [Token(">", Punct, line)])
    case Strings(items) => StringsTokens(items, line)
    case Bytes(items) => [Token("[", Punct, line)] + (WordsTokens(items, line) + [Token("]", Punct, line)])
    case Raw(items) => WordsTokens(items, line)
  }

  function ValueTokens(parts: seq<Part>, line: nat): seq<Token> {
    if parts == [] then [] else PartTokens(parts[0], line) + ValueTokens(parts[1..], line)
  }

  // ----- scanning what was printed -----

  predicate EndsHere(rest: string) {
    rest == [] || EndsWord(rest[0])
  }

  lemma LexWord(w: string, rest: string, line: nat)
    requires IsWord(w) && EndsHere(rest)
    ensures Lex(w + rest, line) == Prepend([Token(w, Word, line)], Lex(rest, line))
  {
    hide StringBody, Find, CountNewlines, Decode;
    var s := w + rest;
    assert s[0] == w[0] && w[0] in w;
    forall i | 0 <= i < |w| ensures !EndsWord(s[i]) {
      assert s[i] == w[i] && w[i] in w;
    }
    assert |s| > |w| ==> s[|w|] == rest[0];
    assert WordLength(s) == |w|;
    assert s[..|w|] == w && s[|w|..] == rest;
  }

  lemma LexPunct(c: char, rest: string, line: nat)
    requires IsPunct(c)
    ensures Lex([c] + rest, line) == Prepend([Token([c], Punct, line)], Lex(rest, line))
  {
    hide StringBody, Find, CountNewlines, Decode, WordLength;
    var s := [c] + rest;
    assert s[1..] == rest;
  }

  lemma LexSpace(rest: string, line: nat)
    ensures Lex(" " + rest, line) == Lex(rest, line)
  {
    hide StringBody, Find, CountNewlines, Decode, WordLength;
    var s := " " + rest;
    assert s[1..] == rest;
    PrependNothing(Lex(rest, line));
  }

  lemma {:induction false} PlainBody(p: string, t: string)
    requires '"' !in p && '\\' !in p && '\n' !in p
    ensures StringBody(p + t) == Extend(StringBody(t), Body(|p|, 0))
  {
    hide StringBody;
    if p == [] {
      assert p + t == t;
    } else {
      var s := p + t;
      assert s[0] == p[0] && p[0] in p;
      assert s[1..] == p[1..] + t;
      PlainBody(p[1..], t);
      StringBodyUnfold(s);
      assert BodyStep(s) == Body(1, 0);
    }
  }

  lemma EscapedCharBody(c: char, t: string)
    ensures StringBody(EscapeChar(c) + t) == Extend(StringBody(t), Body(|EscapeChar(c)|, 0))
  {
    hide StringBody;
    var e := EscapeChar(c);
    var s := e + t;
    if |e| == 1 {
      PlainBody(e, t);
    } else {
      StringBodyUnfold(s);
      assert BodyStep(s) == Body(2, 0);
      if |e| == 2 {
        assert s[2..] == t;
      } else {
        var p := "00" + PrintByte(c as nat);
        assert s[2..] == p + t;
        PlainBody(p, t);
      }
    }
  }

  lemma StringBodyClosed(s: string)
    requires s != [] && s[0] == '"'
    ensures StringBody(s) == Some(Body(0, 0))
  {
  }

  lemma {:induction false} EscapedBody(s: string, rest: string)
    ensures StringBody(Escape(s) + "\"" + rest) == Some(Body(|Escape(s)|, 0))
  {
    hide StringBody, EscapeChar;
    if s == [] {
      StringBodyClosed("\"" + rest);
      assert Escape(s) + "\"" + rest == "\"" + rest;
    } else {
      var t := Escape(s[1..]) + "\"" + rest;
      assert Escape(s) + "\"" + rest == EscapeChar(s[0]) + t;
      EscapedCharBody(s[0], t);
      EscapedBody(s[1..], rest);
    }
  }

  /** A quoted string scans to one string token, whatever its characters. */
  lemma LexQuoted(s: string, rest: string, line: nat)
    ensures Lex(Quote(s) + rest, line) == Prepend([Token(Heard(s), Str, line)], Lex(rest, line))
  {
    hide StringBody, Find, CountNewlines, Decode, WordLength, Escape;
    var text := Quote(s) + rest;
    EscapedBody(s, rest);
    assert text[0] == '"' && text[1..] == Escape(s) + "\"" + rest;
    assert text[1..1 + |Escape(s)|] == Escape(s);
    assert text[|Escape(s)| + 2..] == rest;
  }

  lemma PrintedNumberIsWord(n: int)
    ensures IsWord(PrintNumber(n))
  {
  }

  lemma LetterIsInWord(c: char)
    requires 'a' <= c <= 'z' || c == '-' || c == '?'
    ensures !EndsWord(c)
  {
  }

  lemma MissingLabelIsWord()
    ensures IsWord(AtomText(MissingLabel))
  {
    hide EndsWord;
    var text := AtomText(MissingLabel);
    forall c | c in text ensures !EndsWord(c) {
      LetterIsInWord(c);
    }
  }

  lemma LexAtom(a: Atom, rest: string, line: nat)
    requires PlainAtom(a) && EndsHere(rest)
    ensures Lex(AtomText(a) + rest, line) == Prepend(AtomTokens(a, line), Lex(rest, line))
  {
    match a
    case Number(n) =>
      PrintedNumberIsWord(n);
      LexWord(PrintNumber(n), rest, line);
    case RefName(l) =>
      assert AtomText(a) + rest == ['&'] + (l + rest);
      LexPunct('&', l + rest, line);
      LexWord(l, rest, line);
      AppendTokens([Token("&", Punct, line)], [Token(l, Word, line)], Lex(rest, line));
      assert [Token("&", Punct, line)] + [Token(l, Word, line)] == AtomTokens(a, line);
    case RawAtom(t) =>
      LexWord(t, rest, line);
    case MissingLabel =>
      MissingLabelIsWord();
      LexWord(AtomText(a), rest, line);
  }

  lemma MapTail<T, U>(f: T -> U, items: seq<T>)
    requires items != []
    ensures Map(f, items)[0] == f(items[0]) && Map(f, items)[1..] == Map(f, items[1..])
  {
  }

  /** A text, its separator and whatever follows, associated to the right. */
  lemma JoinStep(sep: string, items: seq<string>, rest: string)
    requires |items| > 1
    ensures Join(sep, items) + rest == items[0] + (sep + (Join(sep, items[1..]) + rest))
  {
  }

  lemma {:induction false} LexAtoms(atoms: seq<Atom>, rest: string, line: nat)
    requires forall a | a in atoms :: PlainAtom(a)
    requires EndsHere(rest)
    ensures Lex(Join(" ", Map(AtomText, atoms)) + rest, line) == Prepend(AtomsTokens(atoms, line), Lex(rest, line))
  {
    hide Lex;
    if atoms == [] {
      assert Join(" ", Map(AtomText, atoms)) + rest == rest;
      PrependNothing(Lex(rest, line));
    } else {
      MapTail(AtomText, atoms);
      var head, tail := AtomTokens(atoms[0], line), atoms[1..];
      AppendTokens(head, AtomsTokens(tail, line), Lex(rest, line));
      if |atoms| == 1 {
        LexAtom(atoms[0], rest, line);
        assert AtomsTokens(atoms, line) == head + [] == head;
      } else {
        JoinStep(" ", Map(AtomText, atoms), rest);
        var after := Join(" ", Map(AtomText, tail)) + rest;
        LexAtom(atoms[0], " " + after, line);
        LexSpace(after, line);
        LexAtoms(tail, rest, line);
      }
    }
  }

  lemma {:induction false} LexWords(words: seq<string>, rest: string, line: nat)
    requires forall w | w in words :: IsWord(w)
    requires EndsHere(rest)
    ensures Lex(Join(" ", words) + rest, line) == Prepend(WordsTokens(words, line), Lex(rest, line))
  {
    hide Lex;
    if words == [] {
      assert Join(" ", words) + rest == rest;
      PrependNothing(Lex(rest, line));
    } else {
      var head, tail := [Token(words[0], Word, line)], words[1..];
      AppendTokens(head, WordsTokens(tail, line), Lex(rest, line));
      if |words| == 1 {
        LexWord(words[0], rest, line);
        assert WordsTokens(words, line) == head + [] == head;
      } else {
        JoinStep(" ", words, rest);
        var after := Join(" ", tail) + rest;
        LexWord(words[0], " " + after, line);
        LexSpace(after, line);
        LexWords(tail, rest, line);
      }
    }
  }

  lemma {:induction false} LexStrings(items: seq<string>, rest: string, line: nat)
    ensures Lex(Join(", ", Map(Quote, items)) + rest, line) ==
            Prepend(StringsTokens(Map(Heard, items), line), Lex(rest, line))
  {
    hide Lex, Heard, Quote;
    if items == [] {
      assert Join(", ", Map(Quote, items)) + rest == rest;
      PrependNothing(Lex(rest, line));
    } else {
      MapTail(Quote, items);
      MapTail(Heard, items);
      var head, tail := Token(Heard(items[0]), Str, line), items[1..];
      if |items| == 1 {
        LexQuoted(items[0], rest, line);
      } else {
        JoinStep(", ", Map(Quote, items), rest);
        LexStrings(tail, rest, line);
        LexListed(items[0], Join(", ", Map(Quote, tail)) + rest, StringsTokens(Map(Heard, tail), line), rest, line);
      }
    }
  }

  /** A quoted string with more of its list behind a comma. */
  lemma LexListed(s: string, after: string, ts: seq<Token>, rest: string, line: nat)
    requires Lex(after, line) == Prepend(ts, Lex(rest, line))
    ensures Lex(Quote(s) + (", " + after), line) ==
            Prepend([Token(Heard(s), Str, line), Token(",", Punct, line)] + ts, Lex(rest, line))
  {
    hide Lex, Heard, Quote;
    var head, comma := Token(Heard(s), Str, line), Token(",", Punct, line);
    assert ", " + after == "," + (" " + after);
    LexQuoted(s, "," + (" " + after), line);
    LexPunct(',', " " + after, line);
    LexSpace(after, line);
    AppendTokens([head], [comma], Lex(after, line));
    AppendTokens([head] + [comma], ts, Lex(rest, line));
    assert [head] + [comma] == [head, comma];
  }

  lemma LexBracketed(open: char, inner: string, ts: seq<Token>, close: char, rest: string, line: nat)
    requires IsPunct(open) && IsPunct(close)
    requires Lex(inner + ([close] + rest), line) == Prepend(ts, Lex([close] + rest, line))
    ensures Lex([open] + inner + [close] + rest, line) ==
            Prepend([Token([open], Punct, line)] + (ts + [Token([close], Punct, line)]), Lex(rest, line))
  {
    hide Lex;
    var o, c := [Token([open], Punct, line)], [Token([close], Punct, line)];
    assert [open] + inner + [close] + rest == [open] + (inner + ([close] + rest));
    LexPunct(open, inner + ([close] + rest), line);
    LexPunct(close, rest, line);
    AppendTokens(ts, c, Lex(rest, line));
    AppendTokens(o, ts + c, Lex(rest, line));
  }

  lemma LexPart(p: Part, rest: string, line: nat)
    requires PlainPart(p) && EndsHere(rest)
    ensures Lex(PartText(p) + rest, line) == Prepend(PartTokens(Spoken(p), line), Lex(rest, line))
  {
    hide Lex;
    match p
    case Cells(atoms) =>
      LexAtoms(atoms, ">" + rest, line);
      LexBracketed('<', Join(" ", Map(AtomText, atoms)), AtomsTokens(atoms, line), '>', rest, line);
    case Strings(items) =>
      LexStrings(items, rest, line);
    case Bytes(items) =>
      LexWords(items, "]" + rest, line);
      LexBracketed('[', Join(" ", items), WordsTokens(items, line), ']', rest, line);
    case Raw(items) =>
      LexWords(items, rest, line);
  }

  /** The printed text of a value of words scans to the tokens of its parts, whatever follows it. */
  lemma {:induction false} LexValue(parts: seq<Part>, rest: string, line: nat)
    requires forall p | p in parts :: PlainPart(p)
    requires EndsHere(rest)
    ensures Lex(PartsText(parts) + rest, line) == Prepend(ValueTokens(Map(Spoken, parts), line), Lex(rest, line))
  {
    hide Lex, Spoken, PlainPart, PartTokens;
    if parts == [] {
      assert PartsText(parts) + rest == rest;
      PrependNothing(Lex(rest, line));
    } else {
      MapTail(PartText, parts);
      MapTail(Spoken, parts);
      var tail := parts[1..];
      var head, others := PartTokens(Spoken(parts[0]), line), ValueTokens(Map(Spoken, tail), line);
      AppendTokens(head, others, Lex(rest, line));
      assert ValueTokens(Map(Spoken, parts), line) == head + others;
      if |parts| == 1 {
        LexPart(parts[0], rest, line);
        assert head + others == head;
      } else {
        JoinStep(" ", Map(PartText, parts), rest);
        var after := PartsText(tail) + rest;
        LexPart(parts[0], " " + after, line);
        LexSpace(after, line);
        LexValue(tail, rest, line);
      }
    }
  }

  lemma LexWholeValue(parts: seq<Part>)
    requires forall p | p in parts :: PlainPart(p)
    ensures Lex(PartsText(parts), 1) == Ok(ValueTokens(Map(Spoken, parts), 1))
  {
    hide Lex;
    LexValue(parts, [], 1);
    LexNothing(ValueTokens(Map(Spoken, parts), 1), 1);
    assert PartsText(parts) + [] == PartsText(parts);
  }

  // ----- parsing the tokens -----

  lemma WordIsNotPunct(w: string)
    requires IsWord(w)
    ensures w !in {",", "<", "[", ">", "]", "&", "/"}
  {
    assert w[0] in w;
  }

  lemma ParseAtom(a: Atom, rest: seq<Token>, line: nat)
    requires PlainAtom(a)
    ensures (AtomTokens(a, line) + rest)[0].value != ">"
    ensures CellStep(AtomTokens(a, line) + rest) == ([HeardAtom(a)], |AtomTokens(a, line)|)
  {
    if !a.RefName? {
      if a.Number? {
        PrintedNumberIsWord(a.n);
      } else if a.MissingLabel? {
        MissingLabelIsWord();
      }
      WordIsNotPunct(AtomText(a));
    }
  }

  lemma CellRunUnfold(ts: seq<Token>, atoms: seq<Atom>, k: nat)
    requires ts != [] && ts[0].value != ">" && CellStep(ts) == (atoms, k)
    ensures CellRun(ts) == (atoms + CellRun(ts[k..]).0, k + CellRun(ts[k..]).1)
  {
    hide CellStep;
  }

  lemma NoAtoms(line: nat)
    ensures AtomsTokens([], line) == []
  {
  }

  lemma AtomsUnfold(atoms: seq<Atom>, line: nat)
    requires atoms != []
    ensures AtomsTokens(atoms, line) == AtomTokens(atoms[0], line) + AtomsTokens(atoms[1..], line)
  {
    hide AtomTokens;
  }

  lemma {:induction false} ParseAtoms(atoms: seq<Atom>, rest: seq<Token>, line: nat)
    requires forall a | a in atoms :: PlainAtom(a)
    requires rest != [] && rest[0].value == ">"
    ensures CellRun(AtomsTokens(atoms, line) + rest) == (Map(HeardAtom, atoms), |AtomsTokens(atoms, line)|)
  {
    hide CellStep, CellRun, AtomTokens, PlainAtom, AtomsTokens, HeardAtom;
    if atoms == [] {
      NoAtoms(line);
      assert [] + rest == rest;
      CellRunEnd(rest);
    } else {
      var head, tail := AtomTokens(atoms[0], line), AtomsTokens(atoms[1..], line);
      var after := tail + rest;
      var ts := head + after;
      AtomsUnfold(atoms, line);
      assert head + tail + rest == ts;
      ParseAtom(atoms[0], after, line);
      ParseAtoms(atoms[1..], rest, line);
      CellRunUnfold(ts, [HeardAtom(atoms[0])], |head|);
      assert ts[|head|..] == after;
      MapTail(HeardAtom, atoms);
      assert Map(HeardAtom, atoms) == [HeardAtom(atoms[0])] + Map(HeardAtom, atoms[1..]);
    }
  }

  lemma WordsUnfold(words: seq<string>, rest: seq<Token>, line: nat)
    ensures words == [] ==> WordsTokens(words, line) + rest == rest
    ensures words != [] ==>
      var ts := WordsTokens(words, line) + rest;
      ts != [] && ts[0] == Token(words[0], Word, line) && ts[1..] == WordsTokens(words[1..], line) + rest
  {
    if words == [] {
      assert [] + rest == rest;
    } else {
      var tail := WordsTokens(words[1..], line);
      assert WordsTokens(words, line) == [Token(words[0], Word, line)] + tail;
      hide WordsTokens;
      assert [Token(words[0], Word, line)] + tail + rest == [Token(words[0], Word, line)] + (tail + rest);
    }
  }

  lemma ByteRunUnfold(ts: seq<Token>)
    ensures ts == [] || ts[0].value == "]" ==> ByteRun(ts) == ([], 0)
    ensures ts != [] && ts[0].value != "]" && ts[0].value != "," ==>
      ByteRun(ts) == ([NormaliseByte(ts[0].value)] + ByteRun(ts[1..]).0, 1 + ByteRun(ts[1..]).1)
  {
    hide NormaliseByte;
  }

  lemma RawRunUnfold(ts: seq<Token>)
    ensures ts == [] || ts[0].value in {",", "<", "["} ==> RawRun(ts) == ([], 0)
    ensures ts != [] && ts[0].value !in {",", "<", "["} ==>
      RawRun(ts) == ([ts[0].value] + RawRun(ts[1..]).0, 1 + RawRun(ts[1..]).1)
  {
  }

  lemma {:induction false} ParseBytes(items: seq<string>, rest: seq<Token>, line: nat)
    requires forall b | b in items :: IsWord(b)
    requires rest != [] && rest[0].value == "]"
    ensures ByteRun(WordsTokens(items, line) + rest) == (Map(NormaliseByte, items), |items|)
  {
    hide NormaliseByte, ByteRun, WordsTokens;
    WordsUnfold(items, rest, line);
    ByteRunUnfold(WordsTokens(items, line) + rest);
    if items != [] {
      WordIsNotPunct(items[0]);
      ParseBytes(items[1..], rest, line);
      MapTail(NormaliseByte, items);
      assert Map(NormaliseByte, items) == [NormaliseByte(items[0])] + Map(NormaliseByte, items[1..]);
    }
  }

  /** Bare words are read whole, and so is whatever else is bare behind them. */
  lemma {:induction false} ParseRaw(items: seq<string>, rest: seq<Token>, line: nat)
    requires forall w | w in items :: IsWord(w)
    ensures RawRun(WordsTokens(items, line) + rest) == (items + RawRun(rest).0, |items| + RawRun(rest).1)
  {
    hide RawRun, WordsTokens;
    WordsUnfold(items, rest, line);
    RawRunUnfold(WordsTokens(items, line) + rest);
    var more := RawRun(rest).0;
    if items == [] {
      assert items + more == more;
    } else {
      WordIsNotPunct(items[0]);
      assert items[0] !in {",", "<", "["};
      ParseRaw(items[1..], rest, line);
      assert [items[0]] + (items[1..] + more) == items + more;
    }
  }

  lemma {:induction false} SplitNulOfPrintable(s: string)
    requires PrintableString(s)
    ensures SplitNul(s) == [s]
  {
    if s != [] {
      assert s[0] in s;
      SplitNulOfPrintable(s[1..]);
      assert s == [s[0]] + s[1..];
    }
  }

  lemma StringRunUnfold(ts: seq<Token>, k: nat)
    requires ts != [] && ts[0].kind == Str && StringStep(ts) == k
    ensures StringRun(ts) == (SplitNul(ts[0].value) + StringRun(ts[k..]).0, k + StringRun(ts[k..]).1)
  {
    hide SplitNul, StringStep;
  }

  /** A printed list is read whole with a comma behind it, and so is a list right behind that. */
  lemma {:induction false} ParseStrings(items: seq<string>, comma: seq<Token>, rest: seq<Token>, line: nat)
    requires items != [] && forall s | s in items :: PrintableString(s)
    requires |comma| <= 1 && (comma != [] ==> comma[0].value == ",")
    requires comma == [] && rest != [] ==> rest[0].value != ","
    ensures StringRun(StringsTokens(items, line) + comma + rest) ==
            (items + StringRun(rest).0, |StringsTokens(items, line)| + |comma| + StringRun(rest).1)
  {
    hide SplitNul, StringRun, PrintableString, StringStep;
    SplitNulOfPrintable(items[0]);
    if |items| == 1 {
      FirstString(items[0], comma, rest, line);
      assert [items[0]] == items;
      assert StringsTokens(items, line) == [Token(items[0], Str, line)];
    } else {
      var between := [Token(",", Punct, line)];
      var after := StringsTokens(items[1..], line) + comma + rest;
      assert StringsTokens(items, line) + comma + rest == [Token(items[0], Str, line)] + between + after;
      FirstString(items[0], between, after, line);
      ParseStrings(items[1..], comma, rest, line);
      assert items == [items[0]] + items[1..];
      assert [items[0]] + (items[1..] + StringRun(rest).0) == items + StringRun(rest).0;
    }
  }

  lemma FirstString(s: string, comma: seq<Token>, after: seq<Token>, line: nat)
    requires |comma| <= 1 && (comma != [] ==> comma[0].value == ",")
    requires comma == [] && after != [] ==> after[0].value != ","
    requires SplitNul(s) == [s]
    ensures StringRun([Token(s, Str, line)] + comma + after).0 == [s] + StringRun(after).0
    ensures StringRun([Token(s, Str, line)] + comma + after).1 == 1 + |comma| + StringRun(after).1
  {
    hide SplitNul, StringRun, StringStep;
    var ts := [Token(s, Str, line)] + comma + after;
    StepOverComma(ts, comma, after);
    StringRunUnfold(ts, 1 + |comma|);
    assert ts[1 + |comma|..] == after;
    assert ts[0].value == s;
  }

  lemma StepOverComma(ts: seq<Token>, comma: seq<Token>, after: seq<Token>)
    requires |ts| == 1 + |comma| + |after|
    requires |comma| <= 1 && (comma != [] ==> ts[1].value == ",")
    requires comma == [] && after != [] ==> ts[1].value != ","
    ensures StringStep(ts) == 1 + |comma|
  {
  }

  /** What may follow a part so that the part's own tokens are all it takes. */
  predicate MayFollow(p: Part, rest: seq<Token>) {
    rest == [] ||
    ((p.Strings? ==> rest[0].kind != Str && rest[0].value != ",") && (p.Raw? ==> rest[0].value in {"<", "["}))
  }

  lemma ParseCellsPart(atoms: seq<Atom>, rest: seq<Token>, line: nat)
    requires PlainPart(Cells(atoms))
    ensures PartStep(PartTokens(Cells(atoms), line) + rest) ==
            ([Cells(Map(HeardAtom, atoms))], |PartTokens(Cells(atoms), line)|)
  {
    hide CellRun, ByteRun, StringRun, RawRun, AtomsTokens, PlainAtom, HeardAtom;
    var ts := PartTokens(Cells(atoms), line) + rest;
    var inner := [Token(">", Punct, line)] + rest;
    ParseAtoms(atoms, inner, line);
    assert ts[0] == Token("<", Punct, line);
    assert ts[1..] == AtomsTokens(atoms, line) + inner;
  }

  lemma BytesStep(ts: seq<Token>, items: seq<string>, k: nat)
    requires ts != [] && ts[0].value == "[" && ByteRun(ts[1..]) == (items, k)
    ensures PartStep(ts) == ([Bytes(items)], 1 + Closed(k, |ts| - 1))
  {
    hide CellRun, ByteRun, StringRun, RawRun;
  }

  lemma ParseBytesPart(items: seq<string>, rest: seq<Token>, line: nat)
    requires PlainPart(Bytes(items))
    ensures PartStep(PartTokens(Bytes(items), line) + rest) ==
            ([Bytes(Map(NormaliseByte, items))], |PartTokens(Bytes(items), line)|)
  {
    hide ByteRun, WordsTokens, NormaliseByte, PartStep;
    var ts := PartTokens(Bytes(items), line) + rest;
    var inner := [Token("]", Punct, line)] + rest;
    ParseBytes(items, inner, line);
    WordsTokensLength(items, line);
    assert ts[0] == Token("[", Punct, line);
    assert ts[1..] == WordsTokens(items, line) + inner;
    BytesStep(ts, Map(NormaliseByte, items), |items|);
  }

  lemma AtomsKeptExactly(atoms: seq<Atom>)
    requires forall a | a in atoms :: PlainAtom(a)
    ensures Map(HeardAtom, atoms) == atoms <==> forall a | a in atoms :: PrintableAtom(a)
  {
    hide HeardAtom, PlainAtom, PrintableAtom;
    MapIsIdentity(HeardAtom, atoms);
    forall a | a in atoms ensures HeardAtom(a) == a <==> PrintableAtom(a) {
      AtomKeptExactly(a);
    }
  }

  lemma BytesKeptExactly(items: seq<string>)
    requires forall b | b in items :: IsWord(b)
    ensures Map(NormaliseByte, items) == items <==> forall b | b in items :: PrintableByte(b)
  {
    hide NormaliseByte, IsWord, PrintableByte;
    MapIsIdentity(NormaliseByte, items);
    forall b | b in items ensures NormaliseByte(b) == b <==> PrintableByte(b) {
      ByteKeptExactly(b);
    }
  }

  lemma ParsePart(p: Part, rest: seq<Token>, line: nat)
    requires PrintablePart(p) && MayFollow(p, rest)
    ensures PartTokens(p, line) != []
    ensures PartStep(PartTokens(p, line) + rest) == ([p], |PartTokens(p, line)|)
  {
    hide CellRun, ByteRun, StringRun, RawRun, AtomsTokens, PrintableAtom, IsPlainByte, IsWord;
    var ts := PartTokens(p, line) + rest;
    PrintableIsSpoken(p);
    match p
    case Cells(atoms) =>
      ParseCellsPart(atoms, rest, line);
      AtomsKeptExactly(atoms);
    case Strings(items) =>
      ParseStrings(items, [], rest, line);
      assert PartTokens(p, line) + [] == PartTokens(p, line);
      StringRunEnd(rest);
      assert items + [] == items;
      assert ts[0] == Token(items[0], Str, line);
    case Bytes(items) =>
      ParseBytesPart(items, rest, line);
      BytesKeptExactly(items);
    case Raw(items) =>
      ParseRaw(items, rest, line);
      RawRunUnfold(rest);
      assert items + [] == items;
      WordsTokensLength(items, line);
      WordIsNotPunct(items[0]);
      assert ts[0] == Token(items[0], Word, line);
  }

  lemma {:induction false} WordsTokensLength(items: seq<string>, line: nat)
    ensures |WordsTokens(items, line)| == |items|
  {
    if items != [] {
      WordsTokensLength(items[1..], line);
    }
  }

  predicate Nonempty(p: Part) {
    p.Strings? || p.Raw? ==> p.items != []
  }

  lemma FirstToken(p: Part, line: nat)
    requires PlainPart(p) && Nonempty(p)
    ensures
      var ts := PartTokens(p, line);
      && ts != []
      && (p.Cells? ==> ts[0] == Token("<", Punct, line))
      && (p.Bytes? ==> ts[0] == Token("[", Punct, line))
      && (p.Strings? ==> ts[0] == Token(p.items[0], Str, line))
      && (p.Raw? ==> ts[0] == Token(p.items[0], Word, line) && !TakenForPunct(p.items[0]))
  {
    if p.Raw? {
      WordIsNotPunct(p.items[0]);
    }
  }

  lemma {:induction false} ParseValue(parts: seq<Part>, line: nat)
    requires PrintableValue(parts)
    ensures ParseParts(ValueTokens(parts, line)) == parts
  {
    hide PartStep;
    if parts != [] {
      var head, tail := parts[0], parts[1..];
      var rest := ValueTokens(tail, line);
      if tail != [] {
        PrintableIsSpoken(tail[0]);
        FirstToken(tail[0], line);
        assert rest[0] == PartTokens(tail[0], line)[0];
        assert StaysApart(head, parts[1]);
      }
      ParsePart(head, rest, line);
      forall i | 0 < i < |tail| ensures StaysApart(tail[i - 1], tail[i]) {
        assert StaysApart(parts[i], parts[i + 1]);
      }
      ParseValue(tail, line);
      var ts := PartTokens(head, line) + rest;
      assert ts[|PartTokens(head, line)|..] == rest;
      assert parts == [head] + tail;
    }
  }

  // ----- the round trip -----

  lemma SpokenAsPrinted(parts: seq<Part>)
    requires forall p | p in parts :: PrintablePart(p)
    ensures Map(Spoken, parts) == parts && forall p | p in parts :: PlainPart(p)
  {
    hide Spoken, PrintablePart, PlainPart;
    forall p | p in parts ensures PlainPart(p) && Spoken(p) == p {
      PrintableIsSpoken(p);
    }
    MapIsIdentity(Spoken, parts);
  }

  /** Every printable value is unchanged by print, scan, parse. */
  lemma PrintScanParse(parts: seq<Part>)
    requires PrintableValue(parts)
    ensures ReadsBack(parts)
  {
    SpokenAsPrinted(parts);
    LexWholeValue(parts);
    ParseValue(parts, 1);
  }

  /** Two adjacent string lists are always read back as one. */
  lemma AdjacentStringListsMerge(a: seq<string>, b: seq<string>)
    requires PrintablePart(Strings(a)) && PrintablePart(Strings(b))
    ensures !ReadsBack([Strings(a), Strings(b)])
    ensures Lex(PartsText([Strings(a), Strings(b)]), 1) == Ok(StringsTokens(a, 1) + StringsTokens(b, 1))
    ensures ParseParts(StringsTokens(a, 1) + StringsTokens(b, 1)) == [Strings(a + b)]
  {
    hide Lex, StringRun, PrintableString;
    var parts := [Strings(a), Strings(b)];
    var left, right := StringsTokens(a, 1), StringsTokens(b, 1);
    SpokenAsPrinted(parts);
    LexWholeValue(parts);
    assert parts[1..] == [Strings(b)] && parts[1..][1..] == [];
    assert ValueTokens(parts[1..], 1) == right + [] == right;
    assert ValueTokens(parts, 1) == left + right;
    ParseStrings(b, [], [], 1);
    StringRunEnd([]);
    assert right + [] == right && b + [] == b;
    assert right[0] == Token(b[0], Str, 1) && left[0] == Token(a[0], Str, 1);
    ParseStrings(a, [], right, 1);
    assert left + [] == left;
    var ts := left + right;
    assert PartStep(ts) == ([Strings(a + b)], |ts|);
    assert ts[|ts|..] == [];
    NoParts();
    assert [Strings(a + b)] + [] == [Strings(a + b)];
  }
}
