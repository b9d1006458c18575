/**
 Exactly which values come back from print, scan, parse: among the values whose
 labels and bare texts are words, the printable ones and no other.
 */
module DtsValueExact {
  import opened Wrappers
  import opened DtsText
  import opened DtsScanner
  import opened DtsValues
  import opened DtsValueRoundTrip

  // ----- strings and string tokens are counted -----

  function StringCount(parts: seq<Part>): nat {
    if parts == [] then 0
    else (if parts[0].Strings? then |parts[0].items| else 0) + StringCount(parts[1..])
  }

  function StrTokens(ts: seq<Token>): nat {
    if ts == [] then 0 else (if ts[0].kind == Str then 1 else 0) + StrTokens(ts[1..])
  }

  /** Every string token stands for one string. */
  predicate Unsplit(ts: seq<Token>) {
    forall t | t in ts :: t.kind == Str ==> SplitNul(t.value) == [t.value]
  }

  lemma {:induction false} FewerAfter(ts: seq<Token>, k: nat)
    requires k <= |ts|
    ensures StrTokens(ts[k..]) <= StrTokens(ts)
    ensures k > 0 && ts[0].kind == Str ==> StrTokens(ts[k..]) < StrTokens(ts)
  {
    if k == 0 {
      assert ts[0..] == ts;
    } else {
      FewerAfter(ts[1..], k - 1);
      assert ts[1..][k - 1..] == ts[k..];
    }
  }

  lemma {:induction false} RunStrings(ts: seq<Token>)
    requires Unsplit(ts)
    ensures |StringRun(ts).0| + StrTokens(ts[StringRun(ts).1..]) <= StrTokens(ts)
    decreases |ts|
  {
    hide SplitNul, StringRun, StringStep, StrTokens;
    if ts == [] || ts[0].kind != Str {
      StringRunEnd(ts);
      assert ts[0..] == ts;
    } else {
      var k := StringStep(ts);
      StringRunUnfold(ts, k);
      RunStrings(ts[k..]);
      FewerAfter(ts, k);
      var n := StringRun(ts[k..]).1;
      assert ts[k..][n..] == ts[k + n..];
    }
  }

  lemma StepStrings(ts: seq<Token>)
    requires ts != [] && Unsplit(ts)
    ensures StringCount(PartStep(ts).0) + StrTokens(ts[PartStep(ts).1..]) <= StrTokens(ts)
  {
    hide CellRun, ByteRun, StringRun, RawRun, StrTokens, SplitNul;
    FewerAfter(ts, PartStep(ts).1);
    RunStrings(ts);
  }

  /** The parser makes at most one string of a string token. */
  lemma {:induction false} ParsedStrings(ts: seq<Token>)
    requires Unsplit(ts)
    ensures StringCount(ParseParts(ts)) <= StrTokens(ts)
    decreases |ts|
  {
    hide PartStep, StrTokens, SplitNul;
    if ts == [] {
      NoParts();
    } else {
      var (parts, k) := PartStep(ts);
      StepStrings(ts);
      ParsedStrings(ts[k..]);
      CountConcat(parts, ParseParts(ts[k..]));
    }
  }

  lemma {:induction false} CountConcat(a: seq<Part>, b: seq<Part>)
    ensures StringCount(a + b) == StringCount(a) + StringCount(b)
  {
    if a == [] {
      assert a + b == b;
    } else {
      CountConcat(a[1..], b);
      assert (a + b)[1..] == a[1..] + b;
    }
  }

  lemma {:induction false} StrTokensConcat(a: seq<Token>, b: seq<Token>)
    ensures StrTokens(a + b) == StrTokens(a) + StrTokens(b)
  {
    if a == [] {
      assert a + b == b;
    } else {
      StrTokensConcat(a[1..], b);
      assert (a + b)[1..] == a[1..] + b;
    }
  }

  lemma {:induction false} AtomsHoldNoString(atoms: seq<Atom>, line: nat)
    ensures StrTokens(AtomsTokens(atoms, line)) == 0
  {
    if atoms != [] {
      AtomsHoldNoString(atoms[1..], line);
      StrTokensConcat(AtomTokens(atoms[0], line), AtomsTokens(atoms[1..], line));
    }
  }

  lemma {:induction false} WordsHoldNoString(words: seq<string>, line: nat)
    ensures StrTokens(WordsTokens(words, line)) == 0
  {
    if words != [] {
      WordsHoldNoString(words[1..], line);
      StrTokensConcat([Token(words[0], Word, line)], WordsTokens(words[1..], line));
    }
  }

  lemma {:induction false} StringsHoldTheirStrings(items: seq<string>, line: nat)
    ensures StrTokens(StringsTokens(items, line)) == |items|
  {
    if |items| > 1 {
      StringsHoldTheirStrings(items[1..], line);
      StrTokensConcat([Token(items[0], Str, line), Token(",", Punct, line)], StringsTokens(items[1..], line));
    }
  }

  lemma PartStrings(p: Part, line: nat)
    ensures StrTokens(PartTokens(p, line)) == if p.Strings? then |p.items| else 0
  {
    match p
    case Cells(atoms) =>
      AtomsHoldNoString(atoms, line);
      StrTokensConcat(AtomsTokens(atoms, line), [Token(">", Punct, line)]);
    case Strings(items) =>
      StringsHoldTheirStrings(items, line);
    case Bytes(items) =>
      WordsHoldNoString(items, line);
      StrTokensConcat(WordsTokens(items, line), [Token("]", Punct, line)]);
    case Raw(items) =>
      WordsHoldNoString(items, line);
  }

  /** A printed value scans to one string token for each of its strings. */
  lemma {:induction false} PrintedStrings(parts: seq<Part>, line: nat)
    ensures StrTokens(ValueTokens(Map(Spoken, parts), line)) == StringCount(parts)
  {
    hide StrTokens, PartTokens;
    if parts == [] {
      NoTokens();
    } else {
      MapTail(Spoken, parts);
      PartStrings(Spoken(parts[0]), line);
      PrintedStrings(parts[1..], line);
      StrTokensConcat(PartTokens(Spoken(parts[0]), line), ValueTokens(Map(Spoken, parts[1..]), line));
    }
  }

  lemma NoTokens()
    ensures StrTokens([]) == 0
  {
  }

  lemma {:induction false} StringsAreUnsplit(items: seq<string>, line: nat)
    requires forall s | s in items :: PrintableString(s)
    ensures Unsplit(StringsTokens(items, line))
  {
    hide SplitNul, PrintableString;
    if items != [] {
      SplitNulOfPrintable(items[0]);
      StringsAreUnsplit(items[1..], line);
    }
  }

  lemma {:induction false} WordsAreNoStrings(words: seq<string>, line: nat)
    ensures forall t | t in WordsTokens(words, line) :: t.kind == Word
  {
    if words != [] {
      WordsAreNoStrings(words[1..], line);
    }
  }

  lemma {:induction false} AtomsAreNoStrings(atoms: seq<Atom>, line: nat)
    ensures forall t | t in AtomsTokens(atoms, line) :: t.kind != Str
  {
    if atoms != [] {
      AtomsAreNoStrings(atoms[1..], line);
    }
  }

  lemma PartIsUnsplit(p: Part, line: nat)
    ensures Unsplit(PartTokens(Spoken(p), line))
  {
    hide SplitNul, AtomsTokens, WordsTokens, StringsTokens;
    match p
    case Cells(atoms) =>
      AtomsAreNoStrings(atoms, line);
    case Strings(items) =>
      HeardStringsArePrintable(items);
      StringsAreUnsplit(Map(Heard, items), line);
    case Bytes(items) =>
      WordsAreNoStrings(items, line);
    case Raw(items) =>
      WordsAreNoStrings(items, line);
  }

  lemma HeardStringsArePrintable(items: seq<string>)
    ensures forall s | s in Map(Heard, items) :: PrintableString(s)
  {
    hide Heard, PrintableString;
    forall i | 0 <= i < |items| ensures PrintableString(Map(Heard, items)[i]) {
      HeardIsPrintable(items[i]);
    }
  }

  lemma {:induction false} ValueIsUnsplit(parts: seq<Part>, line: nat)
    ensures Unsplit(ValueTokens(Map(Spoken, parts), line))
  {
    hide SplitNul, PartTokens, Spoken;
    if parts != [] {
      MapTail(Spoken, parts);
      PartIsUnsplit(parts[0], line);
      ValueIsUnsplit(parts[1..], line);
    }
  }

  // ----- what the parser never returns -----

  lemma StepIsNonempty(ts: seq<Token>)
    requires ts != []
    ensures forall p | p in PartStep(ts).0 :: Nonempty(p)
  {
    hide CellRun, ByteRun, SplitNul;
  }

  lemma {:induction false} ParsedIsNonempty(ts: seq<Token>)
    ensures forall p | p in ParseParts(ts) :: Nonempty(p)
    decreases |ts|
  {
    hide PartStep, Nonempty;
    if ts != [] {
      StepIsNonempty(ts);
      ParsedIsNonempty(ts[PartStep(ts).1..]);
    }
  }

  lemma OnePart(ts: seq<Token>, p: Part, k: nat)
    requires ts != [] && PartStep(ts) == ([p], k)
    ensures ParseParts(ts) == [p] + ParseParts(ts[k..])
  {
    hide PartStep;
  }

  // ----- the first part of a value that reads back -----

  /** What the tokens behind a part that was read whole start with. */
  predicate EndsBefore(p: Part, rest: seq<Token>) {
    rest != [] ==> (p.Strings? ==> rest[0].kind != Str) && (p.Raw? ==> TakenForPunct(rest[0].value))
  }

  predicate TakenWhole(p: Part, rest: seq<Token>, tail: seq<Part>) {
    PrintablePart(p) && EndsBefore(p, rest) && ParseParts(rest) == tail
  }

  lemma CellsTaken(atoms: seq<Atom>, rest: seq<Token>, tail: seq<Part>, line: nat)
    requires PlainPart(Cells(atoms))
    requires ParseParts(PartTokens(Cells(atoms), line) + rest) == [Cells(atoms)] + tail
    ensures TakenWhole(Cells(atoms), rest, tail)
  {
    hide PartStep, ParseParts, PartTokens, HeardAtom, PrintableAtom, PlainAtom;
    var own := PartTokens(Cells(atoms), line);
    ParseCellsPart(atoms, rest, line);
    FirstToken(Cells(atoms), line);
    OnePart(own + rest, Cells(Map(HeardAtom, atoms)), |own|);
    assert (own + rest)[|own|..] == rest;
    SameLists([Cells(Map(HeardAtom, atoms))], ParseParts(rest), [Cells(atoms)], tail);
    AtomsKeptExactly(atoms);
  }

  lemma BytesTaken(items: seq<string>, rest: seq<Token>, tail: seq<Part>, line: nat)
    requires PlainPart(Bytes(items))
    requires ParseParts(PartTokens(Bytes(items), line) + rest) == [Bytes(items)] + tail
    ensures TakenWhole(Bytes(items), rest, tail)
  {
    hide PartStep, ParseParts, PartTokens, NormaliseByte, PrintableByte, IsWord;
    var own := PartTokens(Bytes(items), line);
    ParseBytesPart(items, rest, line);
    FirstToken(Bytes(items), line);
    OnePart(own + rest, Bytes(Map(NormaliseByte, items)), |own|);
    assert (own + rest)[|own|..] == rest;
    SameLists([Bytes(Map(NormaliseByte, items))], ParseParts(rest), [Bytes(items)], tail);
    BytesKeptExactly(items);
  }

  lemma SameLists<T>(a: seq<T>, b: seq<T>, c: seq<T>, d: seq<T>)
    requires a + b == c + d && |a| == |c|
    ensures a == c && b == d
  {
    assert (a + b)[..|a|] == a && (a + b)[|a|..] == b;
    assert (c + d)[..|c|] == c && (c + d)[|c|..] == d;
  }

  lemma RawTaken(items: seq<string>, rest: seq<Token>, tail: seq<Part>, line: nat)
    requires PlainPart(Raw(items)) && items != []
    requires ParseParts(PartTokens(Raw(items), line) + rest) == [Raw(items)] + tail
    ensures TakenWhole(Raw(items), rest, tail)
  {
    hide ParseParts, WordsTokens, CellRun, ByteRun, StringRun, RawRun, IsWord;
    var own := PartTokens(Raw(items), line);
    var ts := own + rest;
    ParseRaw(items, rest, line);
    FirstToken(Raw(items), line);
    OnePart(ts, Raw(RawRun(ts).0), RawRun(ts).1);
    SameLists([Raw(RawRun(ts).0)], ParseParts(ts[RawRun(ts).1..]), [Raw(items)], tail);
    assert |items + RawRun(rest).0| == |items|;
    WordsTokensLength(items, line);
    assert ts[|own|..] == rest;
  }

  /** A first string that is a comma is skipped, and then a string is missing. */
  lemma CommaIsLost(parts: seq<Part>, line: nat)
    requires ParseParts(ValueTokens(Map(Spoken, parts), line)) == parts
    ensures var ts := ValueTokens(Map(Spoken, parts), line); ts != [] && ts[0].kind == Str ==> ts[0].value != ","
  {
    hide StrTokens, SplitNul, ValueTokens, Spoken;
    var ts := ValueTokens(Map(Spoken, parts), line);
    if ts != [] && ts[0].kind == Str && ts[0].value == "," {
      PrintedStrings(parts, line);
      ValueIsUnsplit(parts, line);
      assert PartStep(ts) == ([], 1);
      assert ParseParts(ts) == [] + ParseParts(ts[1..]) == ParseParts(ts[1..]);
      ParsedStrings(ts[1..]);
      FewerAfter(ts, 1);
      assert false;
    }
  }

  lemma StringsStep(ts: seq<Token>)
    requires ts != [] && ts[0].kind == Str && !TakenForPunct(ts[0].value)
    ensures PartStep(ts) == ([Strings(StringRun(ts).0)], StringRun(ts).1)
  {
    hide StringRun;
  }

  lemma EmptyRun(ts: seq<Token>)
    requires StringRun(ts).0 == []
    ensures StringRun(ts).1 == 0 && (ts != [] ==> ts[0].kind != Str)
  {
    hide SplitNul, StringStep;
  }

  lemma StringsTaken(items: seq<string>, rest: seq<Token>, tail: seq<Part>, line: nat)
    requires items != []
    requires rest == ValueTokens(Map(Spoken, tail), line)
    requires !TakenForPunct(Heard(items[0]))
    requires forall p | p in tail :: PlainPart(p) && Nonempty(p)
    requires ParseParts(PartTokens(Spoken(Strings(items)), line) + rest) == [Strings(items)] + tail
    ensures TakenWhole(Strings(items), rest, tail)
  {
    hide StringRun, ParseParts, StringsTokens, Heard, PartStep, StrTokens, SplitNul, Unsplit, PrintableString;
    var heard := Map(Heard, items);
    var comma := if rest != [] && rest[0].value == "," then rest[..1] else [];
    var after := rest[|comma|..];
    var own := PartTokens(Spoken(Strings(items)), line);
    var ts := own + rest;
    assert own + comma + after == ts;
    HeardStringsArePrintable(items);
    ParseStrings(heard, comma, after, line);
    FirstToken(Strings(heard), line);
    StringsStep(ts);
    OnePart(ts, Strings(StringRun(ts).0), StringRun(ts).1);
    SameLists([Strings(StringRun(ts).0)], ParseParts(ts[StringRun(ts).1..]), [Strings(items)], tail);
    assert |heard + StringRun(after).0| == |items|;
    EmptyRun(after);
    assert ts[|own| + |comma|..] == after;
    assert heard == items;
    StringsKeptExactly(items);
    NoCommaSwallowed(rest, tail, |comma|, line);
  }

  lemma NoCommaSwallowed(rest: seq<Token>, tail: seq<Part>, k: nat, line: nat)
    requires rest == ValueTokens(Map(Spoken, tail), line)
    requires forall p | p in tail :: PlainPart(p) && Nonempty(p)
    requires k <= 1 && (k == 1 ==> rest != [] && rest[0].value == ",")
    requires k <= |rest| && ParseParts(rest[k..]) == tail
    ensures k == 0
  {
    hide StrTokens, SplitNul, Spoken, PartTokens, ParseParts, PlainPart, StringCount;
    if k == 1 {
      FirstOfValue(tail, line);
      PrintedStrings(tail, line);
      ValueIsUnsplit(tail, line);
      ParsedStrings(rest[1..]);
      FewerAfter(rest, 1);
      assert false;
    }
  }

  /** Only a string can make a value start with the text of a comma. */
  lemma FirstOfValue(parts: seq<Part>, line: nat)
    requires forall p | p in parts :: PlainPart(p) && Nonempty(p)
    ensures
      var ts := ValueTokens(Map(Spoken, parts), line);
      ts != [] && ts[0].value == "," ==> ts[0].kind == Str
  {
    if parts != [] {
      MapTail(Spoken, parts);
      hide Heard, PartTokens;
      assert parts[0] in parts;
      FirstToken(Spoken(parts[0]), line);
    }
  }

  // ----- the round trip, exactly -----

  lemma HeadTaken(parts: seq<Part>, line: nat)
    requires parts != [] && forall p | p in parts :: PlainPart(p)
    requires ParseParts(ValueTokens(Map(Spoken, parts), line)) == parts
    ensures TakenWhole(parts[0], ValueTokens(Map(Spoken, parts[1..]), line), parts[1..])
  {
    hide ParseParts, PartTokens, PlainPart, Nonempty, TakenWhole, Spoken, Heard, TakenForPunct;
    var p, tail := parts[0], parts[1..];
    var rest := ValueTokens(Map(Spoken, tail), line);
    var ts := ValueTokens(Map(Spoken, parts), line);
    MapTail(Spoken, parts);
    assert ts == PartTokens(Spoken(p), line) + rest;
    ParsedIsNonempty(ts);
    assert p in parts && parts == [p] + tail;
    match p
    case Cells(atoms) => SpokenIsSame(p); CellsTaken(atoms, rest, tail, line);
    case Bytes(items) => SpokenIsSame(p); BytesTaken(items, rest, tail, line);
    case Raw(items) => SpokenIsSame(p); RawTaken(items, rest, tail, line);
    case Strings(items) =>
      CommaIsLost(parts, line);
      FirstIsAString(parts, line);
      StringsTaken(items, rest, tail, line);
  }

  lemma SpokenIsSame(p: Part)
    ensures !p.Strings? ==> Spoken(p) == p
    ensures p.Raw? && Nonempty(p) ==> p.items != []
  {
  }

  lemma FirstIsAString(parts: seq<Part>, line: nat)
    requires parts != [] && parts[0].Strings? && Nonempty(parts[0])
    requires ParseParts(ValueTokens(Map(Spoken, parts), line)) == parts
    requires var ts := ValueTokens(Map(Spoken, parts), line); ts != [] && ts[0].kind == Str ==> ts[0].value != ","
    ensures parts[0].items != [] && !TakenForPunct(Heard(parts[0].items[0]))
  {
    var ts := ValueTokens(Map(Spoken, parts), line);
    MapTail(Spoken, parts);
    MapTail(Heard, parts[0].items);
    FirstToken(Spoken(parts[0]), line);
    hide PartTokens, Heard, CellRun, ByteRun, StringRun, RawRun;
    assert ts[0] == Token(Heard(parts[0].items[0]), Str, line);
  }

  lemma {:induction false} OnlyPrintableReads(parts: seq<Part>, line: nat)
    requires forall p | p in parts :: PlainPart(p)
    requires ParseParts(ValueTokens(Map(Spoken, parts), line)) == parts
    ensures PrintableValue(parts)
  {
    hide ParseParts, PartTokens, PlainPart, PrintablePart, StaysApart, Spoken, Map;
    if parts != [] {
      var p, tail := parts[0], parts[1..];
      HeadTaken(parts, line);
      OnlyPrintableReads(tail, line);
      if tail != [] {
        NextStaysApart(p, tail, line);
      }
      forall i | 0 < i < |parts| ensures StaysApart(parts[i - 1], parts[i]) {
        if i > 1 {
          assert StaysApart(tail[i - 2], tail[i - 1]);
        }
      }
    }
  }

  lemma NextStaysApart(p: Part, tail: seq<Part>, line: nat)
    requires tail != [] && PrintablePart(tail[0])
    requires EndsBefore(p, ValueTokens(Map(Spoken, tail), line))
    ensures StaysApart(p, tail[0])
  {
    MapTail(Spoken, tail);
    PrintableIsSpoken(tail[0]);
    FirstToken(tail[0], line);
    hide PartTokens, Spoken;
  }

  /**
   A value whose labels and bare texts are words is unchanged by print, scan,
   parse exactly when it is printable: no negative number, no missing label, no
   bare text in place of a number, bytes as they are stored, supported strings,
   nothing empty, no list that starts like punctuation, and no neighbours that merge.
   */
  lemma ReadsBackExactly(parts: seq<Part>)
    requires forall p | p in parts :: PlainPart(p)
    ensures ReadsBack(parts) <==> PrintableValue(parts)
  {
    hide PartsText, ParseParts, PlainPart, PrintableValue, ValueTokens;
    LexWholeValue(parts);
    if ReadsBack(parts) {
      OnlyPrintableReads(parts, 1);
    }
    if PrintableValue(parts) {
      PrintScanParse(parts);
    }
  }

  /** A single string is unchanged exactly when it is supported and not taken for punctuation. */
  lemma OneStringReadsBack(s: string)
    ensures ReadsBack([Strings([s])]) <==> PrintableString(s) && !TakenForPunct(s)
  {
    hide ReadsBack;
    ReadsBackExactly([Strings([s])]);
    assert PrintablePart(Strings([s])) <==> PrintableString(s) && !TakenForPunct(s);
  }

  /** A single number is unchanged exactly when it is not negative. */
  lemma OneNumberReadsBack(n: int)
    ensures ReadsBack([Cells([Number(n)])]) <==> n >= 0
  {
    hide ReadsBack;
    ReadsBackExactly([Cells([Number(n)])]);
    var atoms := [Number(n)];
    assert Number(n) in atoms;
    assert PrintablePart(Cells(atoms)) <==> n >= 0;
  }

  /** Outside words the condition is not exact: a closing bracket after an ampersand is read as a label. */
  lemma PunctuationIsReadAsLabel()
    ensures ReadsBack([Cells([RefName(">")])]) && !PrintableValue([Cells([RefName(">")])])
  {
    hide Lex;
    var parts := [Cells([RefName(">")])];
    assert PartsText(parts) == "<&>>" by {
      assert AtomText(RefName(">")) == "&>";
      assert Map(AtomText, parts[0].atoms) == [AtomText(RefName(">"))];
      assert PartText(parts[0]) == "<&>>";
      assert Map(PartText, parts) == [PartText(parts[0])];
    }
    assert "<&>>" == ['<'] + (['&'] + (['>'] + (['>'] + [])));
    LexPunct('>', [], 1);
    LexPunct('>', ['>'] + [], 1);
    LexPunct('&', ['>'] + (['>'] + []), 1);
    LexPunct('<', ['&'] + (['>'] + (['>'] + [])), 1);
    LexNothing([Token(">", Punct, 1)], 1);
    var close := [Token(">", Punct, 1)];
    var inner := [Token("&", Punct, 1)] + (close + close);
    assert Lex("<&>>", 1) == Ok([Token("<", Punct, 1)] + inner);
    ParsesPunctuation(inner);
    assert !IsWord(">") by { assert '>' in ">"; }
    assert RefName(">") in parts[0].atoms && parts[0] in parts;
  }

  lemma ParsesPunctuation(inner: seq<Token>)
    requires inner == [Token("&", Punct, 1), Token(">", Punct, 1), Token(">", Punct, 1)]
    ensures ParseParts([Token("<", Punct, 1)] + inner) == [Cells([RefName(">")])]
  {
    hide SlashRun, ParseInt;
    var ts := [Token("<", Punct, 1)] + inner;
    assert CellStep(inner) == ([RefName(">")], 2);
    CellRunUnfold(inner, [RefName(">")], 2);
    CellRunEnd(inner[2..]);
    assert ts[1..] == inner;
    assert [RefName(">")] + [] == [RefName(">")];
    assert CellRun(ts[1..]) == ([RefName(">")], 2);
    hide CellRun, CellStep;
    assert PartStep(ts) == ([Cells([RefName(">")])], 4);
    OnePart(ts, Cells([RefName(">")]), 4);
    assert ts[4..] == [];
    NoParts();
  }
}
