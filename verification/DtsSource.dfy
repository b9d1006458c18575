/**
 Whole sources. A device tree given as nested blocks is printed as DTS text; scanning and
 parsing that text returns exactly the blocks, as nodes keyed by path.
 */
module DtsSource {
  import opened Wrappers
  import opened Ordering
  import opened DtsScanner
  import opened DtsValues
  import opened DtsValueRoundTrip
  import opened DtsTree
  import opened DtsGrammar
  import opened DtsShape

  // A name in the text is words joined by commas: `front` holds all but the last one, which is `name`.

  datatype Statement =
    | Flag(front: seq<string>, name: string)
    | Assign(front: seq<string>, name: string, parts: seq<Part>)

  datatype Block = Block(
    labels: seq<string>, front: seq<string>, name: string, statements: seq<Statement>, children: seq<Block>)

  // ----- the text -----

  function LabelsText(labels: seq<string>): string {
    if labels == [] then "" else labels[0] + ": " + LabelsText(labels[1..])
  }

  function FrontText(front: seq<string>): string {
    if front == [] then "" else front[0] + "," + FrontText(front[1..])
  }

  /** The name as it is written. */
  function FullName(front: seq<string>, name: string): string {
    FrontText(front) + name
  }

  function StatementText(s: Statement): string {
    match s
    case Flag(front, name) => FullName(front, name) + "; "
    case Assign(front, name, parts) => FullName(front, name) + " = " + PartsText(parts) + "; "
  }

  function StatementsText(ss: seq<Statement>): string {
    if ss == [] then "" else StatementText(ss[0]) + StatementsText(ss[1..])
  }

  function BlockText(b: Block): string {
    LabelsText(b.labels) + FullName(b.front, b.name) + " { " + StatementsText(b.statements) + BlocksText(b.children) + "}; "
  }

  function BlocksText(bs: seq<Block>): string {
    if bs == [] then "" else BlockText(bs[0]) + BlocksText(bs[1..])
  }

  /** A source file: the version directive and the root block. */
  function FileText(root: Block): string {
    "/dts-v1/; " + BlockText(root)
  }

  // ----- what can be printed -----

  /** Value tokens are tested by value too: these would end or unbalance the value. */
  predicate InertString(s: string) {
    s !in {";", "<", "[", "{", ">", "]", "}"}
  }

  predicate InertPart(p: Part) {
    p.Strings? ==> forall s | s in p.items :: InertString(s)
  }

  predicate GoodStatement(s: Statement) {
    && (forall w | w in s.front :: IsWord(w)) && IsWord(s.name)
    && (s.Assign? ==> PrintableValue(s.parts) && forall p | p in s.parts :: InertPart(p))
  }

  predicate GoodBody(b: Block) {
    && (forall l | l in b.labels :: IsWord(l)) && (forall w | w in b.front :: IsWord(w))
    && (forall s | s in b.statements :: GoodStatement(s))
    && (forall c | c in b.children :: IsWord(c.name) && GoodBody(c))
  }

  predicate GoodRoot(b: Block) {
    b.front == [] && b.name == "/" && GoodBody(b)
  }

  // ----- the tokens -----

  function P(value: string, line: nat): seq<Token> {
    [Token(value, Punct, line)]
  }

  function W(value: string, line: nat): seq<Token> {
    [Token(value, Word, line)]
  }

  function LabelsTokens(labels: seq<string>, line: nat): seq<Token> {
    if labels == [] then [] else W(labels[0], line) + P(":", line) + LabelsTokens(labels[1..], line)
  }

  function FrontTokens(front: seq<string>, line: nat): seq<Token> {
    if front == [] then [] else W(front[0], line) + P(",", line) + FrontTokens(front[1..], line)
  }

  function NameToken(name: string, line: nat): seq<Token> {
    if name == "/" then P(name, line) else W(name, line)
  }

  function FullTokens(front: seq<string>, name: string, line: nat): seq<Token> {
    FrontTokens(front, line) + NameToken(name, line)
  }

  function StatementTokens(s: Statement, line: nat): seq<Token> {
    match s
    case Flag(front, name) => FullTokens(front, name, line) + P(";", line)
    case Assign(front, name, parts) =>
      FullTokens(front, name, line) + P("=", line) + DtsValueRoundTrip.ValueTokens(parts, line) + P(";", line)
  }

  function StatementsTokens(ss: seq<Statement>, line: nat): seq<Token> {
    if ss == [] then [] else StatementTokens(ss[0], line) + StatementsTokens(ss[1..], line)
  }

  function BlockTokens(b: Block, line: nat): seq<Token> {
    LabelsTokens(b.labels, line) + FullTokens(b.front, b.name, line) + P("{", line)
      + StatementsTokens(b.statements, line) + BlocksTokens(b.children, line) + P("}", line) + P(";", line)
  }

  function BlocksTokens(bs: seq<Block>, line: nat): seq<Token> {
    if bs == [] then [] else BlockTokens(bs[0], line) + BlocksTokens(bs[1..], line)
  }

  function DirectiveTokens(line: nat): seq<Token> {
    P("/", line) + W("dts-v1", line) + P("/", line) + P(";", line)
  }

  function FileTokens(root: Block, line: nat): seq<Token> {
    DirectiveTokens(line) + BlockTokens(root, line)
  }

  // ----- scanning -----

  /** Scanning a text in front of any rest gives these tokens in front of the rest's. */
  ghost predicate ScansTo(text: string, ts: seq<Token>, line: nat) {
    forall rest :: Lex(text + rest, line) == Prepend(ts, Lex(rest, line))
  }

  lemma ScansConcat(a: string, ts: seq<Token>, b: string, us: seq<Token>, line: nat)
    requires ScansTo(a, ts, line) && ScansTo(b, us, line)
    ensures ScansTo(a + b, ts + us, line)
  {
    hide Lex;
    forall rest ensures Lex(a + b + rest, line) == Prepend(ts + us, Lex(rest, line)) {
      assert a + b + rest == a + (b + rest);
      AppendTokens(ts, us, Lex(rest, line));
    }
  }

  lemma ScansNothing(line: nat)
    ensures ScansTo("", [], line)
  {
    hide Lex;
    forall rest: string ensures Lex("" + rest, line) == Prepend([], Lex(rest, line)) {
      assert "" + rest == rest;
      PrependNothing(Lex(rest, line));
    }
  }

  lemma ScansPunct(mark: string, text: string, line: nat)
    requires |mark| == 1 && IsPunct(mark[0]) && text == mark + " "
    ensures ScansTo(text, P(mark, line), line)
  {
    hide Lex;
    assert [mark[0]] == mark;
    forall rest ensures Lex(text + rest, line) == Prepend(P(mark, line), Lex(rest, line)) {
      assert text + rest == [mark[0]] + (" " + rest);
      LexPunct(mark[0], " " + rest, line);
      LexSpace(rest, line);
    }
  }

  lemma ScansClosing(line: nat)
    ensures ScansTo("}; ", P("}", line) + P(";", line), line)
  {
    hide Lex;
    forall rest ensures Lex("}; " + rest, line) == Prepend(P("}", line) + P(";", line), Lex(rest, line)) {
      assert "}; " + rest == "}" + (";" + (" " + rest));
      LexPunct('}', ";" + (" " + rest), line);
      LexPunct(';', " " + rest, line);
      LexSpace(rest, line);
      AppendTokens(P("}", line), P(";", line), Lex(rest, line));
    }
  }

  /** A word and the punctuation right behind it. */
  lemma ScansWordThen(w: string, text: string, ts: seq<Token>, line: nat)
    requires IsWord(w) && text != [] && EndsWord(text[0]) && ScansTo(text, ts, line)
    ensures ScansTo(w + text, W(w, line) + ts, line)
  {
    hide Lex;
    forall rest ensures Lex(w + text + rest, line) == Prepend(W(w, line) + ts, Lex(rest, line)) {
      assert w + text + rest == w + (text + rest);
      assert (text + rest)[0] == text[0];
      LexWord(w, text + rest, line);
      AppendTokens(W(w, line), ts, Lex(rest, line));
    }
  }

  lemma ScansSpaceThen(text: string, ts: seq<Token>, line: nat)
    requires ScansTo(text, ts, line)
    ensures ScansTo(" " + text, ts, line)
  {
    hide Lex;
    forall rest ensures Lex(" " + text + rest, line) == Prepend(ts, Lex(rest, line)) {
      assert " " + text + rest == " " + (text + rest);
      LexSpace(text + rest, line);
    }
  }

  lemma LexSlash(rest: string, line: nat)
    requires rest == [] || (rest[0] != '/' && rest[0] != '*')
    ensures Lex("/" + rest, line) == Prepend(P("/", line), Lex(rest, line))
  {
    hide StringBody, Find, CountNewlines, DtsText.Decode, WordLength;
    var s := "/" + rest;
    assert s[1..] == rest && s[0] == '/' && s[0] == "//"[0];
    assert |s| > 1 ==> s[1] == rest[0];
    assert "//"[1] == '/' && "/*"[1] == '*';
    assert !("//" <= s) && !("/*" <= s);
  }

  lemma ScansSlashThen(text: string, ts: seq<Token>, line: nat)
    requires text != [] && text[0] != '/' && text[0] != '*' && ScansTo(text, ts, line)
    ensures ScansTo("/" + text, P("/", line) + ts, line)
  {
    hide Lex;
    forall rest ensures Lex("/" + text + rest, line) == Prepend(P("/", line) + ts, Lex(rest, line)) {
      assert "/" + text + rest == "/" + (text + rest);
      assert (text + rest)[0] == text[0];
      LexSlash(text + rest, line);
      AppendTokens(P("/", line), ts, Lex(rest, line));
    }
  }

  lemma {:induction false} ScansLabels(labels: seq<string>, line: nat)
    requires forall l | l in labels :: IsWord(l)
    ensures ScansTo(LabelsText(labels), LabelsTokens(labels, line), line)
  {
    hide ScansTo;
    if labels == [] {
      ScansNothing(line);
    } else {
      ScansLabels(labels[1..], line);
      ScansPunct(":", ": ", line);
      ScansWordThen(labels[0], ": ", P(":", line), line);
      ScansConcat(labels[0] + ": ", W(labels[0], line) + P(":", line),
                  LabelsText(labels[1..]), LabelsTokens(labels[1..], line), line);
    }
  }

  lemma ScansComma(line: nat)
    ensures ScansTo(",", P(",", line), line)
  {
    hide Lex;
    forall rest ensures Lex("," + rest, line) == Prepend(P(",", line), Lex(rest, line)) {
      LexPunct(',', rest, line);
    }
  }

  lemma {:induction false} ScansFront(front: seq<string>, line: nat)
    requires forall w | w in front :: IsWord(w)
    ensures ScansTo(FrontText(front), FrontTokens(front, line), line)
  {
    hide ScansTo;
    if front == [] {
      ScansNothing(line);
    } else {
      ScansFront(front[1..], line);
      ScansComma(line);
      ScansWordThen(front[0], ",", P(",", line), line);
      ScansConcat(front[0] + ",", W(front[0], line) + P(",", line),
                  FrontText(front[1..]), FrontTokens(front[1..], line), line);
    }
  }

  /** A full name and the text right behind it. */
  lemma ScansFullThen(front: seq<string>, name: string, text: string, ts: seq<Token>, line: nat)
    requires (forall w | w in front :: IsWord(w)) && IsWord(name)
    requires text != [] && EndsWord(text[0]) && ScansTo(text, ts, line)
    ensures ScansTo(FullName(front, name) + text, FullTokens(front, name, line) + ts, line)
  {
    hide ScansTo, FrontText, FrontTokens, IsWord;
    WordIsNoSyntax(name);
    ScansFront(front, line);
    ScansWordThen(name, text, ts, line);
    ScansConcat(FrontText(front), FrontTokens(front, line), name + text, W(name, line) + ts, line);
    assert FullName(front, name) + text == FrontText(front) + (name + text);
    assert FullTokens(front, name, line) + ts == FrontTokens(front, line) + (W(name, line) + ts);
  }

  lemma ScansStatement(s: Statement, line: nat)
    requires GoodStatement(s)
    ensures ScansTo(StatementText(s), StatementTokens(s, line), line)
  {
    hide ScansTo;
    ScansPunct(";", "; ", line);
    match s
    case Flag(front, name) =>
      ScansFullThen(front, name, "; ", P(";", line), line);
    case Assign(front, name, parts) =>
      hide FullName, FullTokens;
      var full, value := FullTokens(front, name, line), DtsValueRoundTrip.ValueTokens(parts, line);
      ScansValue(parts, line);
      ScansPunct("=", "= ", line);
      ScansSpaceThen("= ", P("=", line), line);
      assert " = " == " " + "= ";
      ScansFullThen(front, name, " = ", P("=", line), line);
      ScansConcat(FullName(front, name) + " = ", full + P("=", line), PartsText(parts) + "; ", value + P(";", line), line);
      assert StatementText(s) == FullName(front, name) + " = " + (PartsText(parts) + "; ");
      assert StatementTokens(s, line) == full + P("=", line) + (value + P(";", line));
  }

  lemma ScansValue(parts: seq<Part>, line: nat)
    requires PrintableValue(parts)
    ensures ScansTo(PartsText(parts) + "; ", DtsValueRoundTrip.ValueTokens(parts, line) + P(";", line), line)
  {
    hide Lex;
    var value := DtsValueRoundTrip.ValueTokens(parts, line);
    SpokenAsPrinted(parts);
    forall rest ensures Lex(PartsText(parts) + "; " + rest, line) == Prepend(value + P(";", line), Lex(rest, line)) {
      assert PartsText(parts) + "; " + rest == PartsText(parts) + (";" + (" " + rest));
      LexValue(parts, ";" + (" " + rest), line);
      LexPunct(';', " " + rest, line);
      LexSpace(rest, line);
      AppendTokens(value, P(";", line), Lex(rest, line));
    }
  }

  lemma {:induction false} ScansStatements(ss: seq<Statement>, line: nat)
    requires forall s | s in ss :: GoodStatement(s)
    ensures ScansTo(StatementsText(ss), StatementsTokens(ss, line), line)
  {
    hide ScansTo, StatementText, StatementTokens;
    if ss == [] {
      ScansNothing(line);
    } else {
      ScansStatement(ss[0], line);
      ScansStatements(ss[1..], line);
      ScansConcat(StatementText(ss[0]), StatementTokens(ss[0], line),
                  StatementsText(ss[1..]), StatementsTokens(ss[1..], line), line);
    }
  }

  lemma ScansName(front: seq<string>, name: string, line: nat)
    requires (forall w | w in front :: IsWord(w)) && (IsWord(name) || (front == [] && name == "/"))
    ensures ScansTo(FullName(front, name) + " { ", FullTokens(front, name, line) + P("{", line), line)
  {
    hide ScansTo;
    ScansPunct("{", "{ ", line);
    ScansSpaceThen("{ ", P("{", line), line);
    assert " { " == " " + "{ ";
    if IsWord(name) {
      ScansFullThen(front, name, " { ", P("{", line), line);
    } else {
      ScansSlashThen(" { ", P("{", line), line);
      assert FullName(front, name) == "/" && FullTokens(front, name, line) == P("/", line);
    }
  }

  lemma {:induction false} ScansBlock(b: Block, line: nat)
    requires GoodBody(b) && (IsWord(b.name) || (b.front == [] && b.name == "/"))
    ensures ScansTo(BlockText(b), BlockTokens(b, line), line)
    decreases b, 1
  {
    hide ScansTo, LabelsText, LabelsTokens, StatementsText, StatementsTokens, BlocksText, BlocksTokens, FullName, FullTokens;
    var labels, name := LabelsTokens(b.labels, line), FullTokens(b.front, b.name, line) + P("{", line);
    var nameText := FullName(b.front, b.name) + " { ";
    var statements, children := StatementsTokens(b.statements, line), BlocksTokens(b.children, line);
    var close := P("}", line) + P(";", line);
    ScansLabels(b.labels, line);
    ScansName(b.front, b.name, line);
    ScansStatements(b.statements, line);
    ScansBlocks(b, b.children, line);
    ScansClosing(line);
    var t1 := LabelsText(b.labels) + nameText;
    ScansConcat(LabelsText(b.labels), labels, nameText, name, line);
    ScansConcat(t1, labels + name, StatementsText(b.statements), statements, line);
    ScansConcat(t1 + StatementsText(b.statements), labels + name + statements, BlocksText(b.children), children, line);
    ScansConcat(t1 + StatementsText(b.statements) + BlocksText(b.children),
                labels + name + statements + children, "}; ", close, line);
    assert BlockText(b) == t1 + StatementsText(b.statements) + BlocksText(b.children) + "}; ";
    assert BlockTokens(b, line) == labels + name + statements + children + close;
  }

  lemma {:induction false} ScansBlocks(parent: Block, bs: seq<Block>, line: nat)
    requires forall c | c in bs :: c in parent.children
    requires forall c | c in bs :: GoodBody(c) && IsWord(c.name)
    ensures ScansTo(BlocksText(bs), BlocksTokens(bs, line), line)
    decreases parent, 0, |bs|
  {
    hide ScansTo, BlockText, BlockTokens;
    if bs == [] {
      ScansNothing(line);
    } else {
      assert bs[0] in bs && bs[0] in parent.children;
      var i :| 0 <= i < |parent.children| && parent.children[i] == bs[0];
      ScansBlock(parent.children[i], line);
      ScansBlocks(parent, bs[1..], line);
      ScansConcat(BlockText(bs[0]), BlockTokens(bs[0], line), BlocksText(bs[1..]), BlocksTokens(bs[1..], line), line);
    }
  }

  lemma ScansDirective(line: nat)
    ensures ScansTo("/dts-v1/; ", DirectiveTokens(line), line)
  {
    hide ScansTo;
    ScansPunct(";", "; ", line);
    ScansSlashThen("; ", P(";", line), line);
    assert "/" + "; " == "/; ";
    ScansWordThen("dts-v1", "/; ", P("/", line) + P(";", line), line);
    assert "dts-v1" + "/; " == "dts-v1/; ";
    ScansSlashThen("dts-v1/; ", W("dts-v1", line) + (P("/", line) + P(";", line)), line);
    assert "/" + "dts-v1/; " == "/dts-v1/; ";
    assert P("/", line) + (W("dts-v1", line) + (P("/", line) + P(";", line))) == DirectiveTokens(line);
  }

  lemma ScansFile(root: Block)
    requires GoodRoot(root)
    ensures Lex(FileText(root), 1) == Ok(FileTokens(root, 1))
  {
    ScansDirective(1);
    ScansBlock(root, 1);
    hide Lex, BlockText, BlockTokens, DirectiveTokens;
    ScansConcat("/dts-v1/; ", DirectiveTokens(1), BlockText(root), BlockTokens(root, 1), 1);
    assert FileText(root) + [] == FileText(root);
    LexNothing(FileTokens(root, 1), 1);
  }

  // ----- parsing -----

  /** The tokens `seg` stand at position `i`. */
  ghost predicate At(ts: seq<Token>, i: nat, seg: seq<Token>) {
    i + |seg| <= |ts| && ts[i..i + |seg|] == seg
  }

  lemma AtSplit(ts: seq<Token>, i: nat, a: seq<Token>, b: seq<Token>)
    requires At(ts, i, a + b)
    ensures At(ts, i, a) && At(ts, i + |a|, b)
  {
    var seg := ts[i..i + |a + b|];
    assert ts[i..i + |a|] == seg[..|a|] == a;
    assert ts[i + |a|..i + |a| + |b|] == seg[|a|..] == b;
  }

  lemma AtFirst(ts: seq<Token>, i: nat, seg: seq<Token>)
    requires At(ts, i, seg) && seg != []
    ensures i < |ts| && ts[i] == seg[0]
  {
  }

  /** A token that the header loop collects. */
  predicate HeaderWord(w: string) {
    w !in {"{", "=", ";", ":", ""}
  }

  /** A token that starts a statement inside a block. */
  predicate Starts(w: string) {
    HeaderWord(w) && w !in {"}", "/"}
  }

  lemma WordIsNoSyntax(w: string)
    requires IsWord(w)
    ensures Starts(w) && HeaderWord(w)
  {
    assert w[0] in w;
  }

  lemma {:induction false} ReadsLabels(ts: seq<Token>, i: nat, labels: seq<string>, found: seq<string>, line: nat)
    requires At(ts, i, LabelsTokens(labels, line))
    requires forall l | l in labels :: IsWord(l)
    decreases |labels|
    ensures ReadHeader(ts, Header(i, [], found)) ==
            ReadHeader(ts, Header(i + |LabelsTokens(labels, line)|, [], found + labels))
  {
    if labels == [] {
      assert found + labels == found;
    } else {
      var head := W(labels[0], line) + P(":", line);
      AtSplit(ts, i, head, LabelsTokens(labels[1..], line));
      AtSplit(ts, i, W(labels[0], line), P(":", line));
      AtFirst(ts, i, W(labels[0], line));
      AtFirst(ts, i + 1, P(":", line));
      WordIsNoSyntax(labels[0]);
      OneLabel(ts, i, labels[0], found);
      ReadsLabels(ts, i + 2, labels[1..], found + [labels[0]], line);
      assert found + [labels[0]] + labels[1..] == found + labels;
    }
  }

  lemma OneLabel(ts: seq<Token>, i: nat, text: string, found: seq<string>)
    requires i + 1 < |ts| && ts[i].value == text && ts[i + 1].value == ":"
    requires HeaderWord(text)
    ensures ReadHeader(ts, Header(i, [], found)) == ReadHeader(ts, Header(i + 2, [], found + [text]))
  {
    assert [] + [text] == [text] && [text][..0] == [];
    assert ReadHeader(ts, Header(i, [], found)) == ReadHeader(ts, Header(i + 1, [text], found));
  }

  function Values(seg: seq<Token>): (r: seq<string>)
    ensures |r| == |seg| && forall i | 0 <= i < |seg| :: r[i] == seg[i].value
  {
    seq(|seg|, i requires 0 <= i < |seg| => seg[i].value)
  }

  lemma ValuesStep(prefix: seq<string>, seg: seq<Token>)
    requires seg != []
    ensures prefix + [seg[0].value] + Values(seg[1..]) == prefix + Values(seg)
  {
  }

  lemma NoValues(prefix: seq<string>)
    ensures prefix + Values([]) == prefix
  {
  }

  /** The header loop collects the words and commas of a name one by one. */
  lemma {:induction false} ReadsWords(ts: seq<Token>, i: nat, seg: seq<Token>, prefix: seq<string>, found: seq<string>)
    requires At(ts, i, seg) && forall t | t in seg :: HeaderWord(t.value)
    ensures i + |seg| <= |ts|
    ensures ReadHeader(ts, Header(i, prefix, found)) == ReadHeader(ts, Header(i + |seg|, prefix + Values(seg), found))
    decreases |seg|
  {
    hide HeaderWord, ReadHeader, At, Values;
    AtIsInside(ts, i, seg);
    if seg == [] {
      NoValues(prefix);
    } else {
      var head, tail := [seg[0]], seg[1..];
      assert seg == head + tail;
      AtFirst(ts, i, seg);
      AtSplit(ts, i, head, tail);
      OneWord(ts, i, prefix, found);
      ReadsWords(ts, i + 1, tail, prefix + [seg[0].value], found);
      ValuesStep(prefix, seg);
    }
  }

  lemma OneWord(ts: seq<Token>, i: nat, prefix: seq<string>, found: seq<string>)
    requires i < |ts| && HeaderWord(ts[i].value)
    ensures ReadHeader(ts, Header(i, prefix, found)) == ReadHeader(ts, Header(i + 1, prefix + [ts[i].value], found))
  {
  }

  /** A name in front of its `{`, `=` or `;`: the header ends with its words, and the last one counts. */
  lemma ReadsName(ts: seq<Token>, i: nat, front: seq<string>, name: string, mark: string, found: seq<string>, line: nat)
    requires (forall w | w in front :: IsWord(w)) && HeaderWord(name) && mark in {"{", "=", ";"}
    requires At(ts, i, FullTokens(front, name, line) + P(mark, line))
    ensures
      var seg := FullTokens(front, name, line);
      var h := Header(i + |seg|, Values(seg), found);
      && h.pos < |ts| && ts[h.pos] == P(mark, line)[0]
      && ReadHeader(ts, Header(i, [], found)) == h && (forall other :: LastOr(h.prefix, other) == name)
  {
    hide ReadHeader, At, IsWord, HeaderWord, FullTokens, LastOr, Values, P;
    var seg, stop := FullTokens(front, name, line), P(mark, line);
    OneMark(mark, line);
    AtSplit(ts, i, seg, stop);
    AtFirst(ts, i + |seg|, stop);
    FullIsHeader(front, name, line);
    ReadsWholeHeader(ts, i, seg, found);
    ValuesAt(seg);
    LastCounts(Values(seg));
  }

  lemma ReadsWholeHeader(ts: seq<Token>, i: nat, seg: seq<Token>, found: seq<string>)
    requires At(ts, i, seg) && forall t | t in seg :: HeaderWord(t.value)
    requires i + |seg| < |ts| && ts[i + |seg|].value in {"{", "=", ";"}
    ensures ReadHeader(ts, Header(i, [], found)) == Header(i + |seg|, Values(seg), found)
  {
    hide ReadHeader, At, HeaderWord, Values;
    ReadsWords(ts, i, seg, [], found);
    NothingInFront(Values(seg));
    HeaderStops(ts, Header(i + |seg|, Values(seg), found));
  }

  lemma OneMark(mark: string, line: nat)
    ensures |P(mark, line)| == 1 && P(mark, line)[0].value == mark
  {
  }

  lemma NothingInFront(prefix: seq<string>)
    ensures [] + prefix == prefix
  {
  }

  lemma ValuesAt(seg: seq<Token>)
    requires seg != []
    ensures |Values(seg)| == |seg| && Values(seg)[|seg| - 1] == seg[|seg| - 1].value
  {
  }

  lemma LastCounts(prefix: seq<string>)
    requires prefix != []
    ensures forall other :: LastOr(prefix, other) == prefix[|prefix| - 1]
  {
  }

  lemma HeaderStops(ts: seq<Token>, h: Header)
    requires h.pos < |ts| && ts[h.pos].value in {"{", "=", ";"}
    ensures ReadHeader(ts, h) == h
  {
  }

  lemma {:induction false} FrontIsHeader(front: seq<string>, line: nat)
    requires forall w | w in front :: IsWord(w)
    ensures forall t | t in FrontTokens(front, line) :: HeaderWord(t.value)
  {
    hide IsWord;
    if front != [] {
      WordIsNoSyntax(front[0]);
      FrontIsHeader(front[1..], line);
      hide HeaderWord;
      assert HeaderWord(",");
    }
  }

  /** A full name starts with a word of its own, and is collected whole by the header loop. */
  lemma FullIsHeader(front: seq<string>, name: string, line: nat)
    requires (forall w | w in front :: IsWord(w)) && HeaderWord(name)
    ensures
      var seg := FullTokens(front, name, line);
      && seg != [] && seg[|seg| - 1].value == name && seg[0].line == line
      && seg[0].value == (if front == [] then name else front[0])
      && forall t | t in seg :: HeaderWord(t.value)
  {
    hide IsWord, HeaderWord;
    FrontIsHeader(front, line);
  }

  // The value of an assignment, up to its semicolon.

  predicate Quiet(t: Token) {
    InertString(t.value)
  }

  /** From `i` the value loop takes exactly `seg`, its depths going from `d` to `e`. */
  ghost predicate Takes(ts: seq<Token>, i: nat, d: Depths, seg: seq<Token>, e: Depths) {
    i + |seg| <= |ts| && TakeValue(ts, i, d) == Prefixed(seg, [], TakeValue(ts, i + |seg|, e))
  }

  lemma TakesNothing(ts: seq<Token>, i: nat, d: Depths)
    requires i <= |ts|
    ensures Takes(ts, i, d, [], d)
  {
    hide TakeValue;
    PrefixedNothing(TakeValue(ts, i, d));
  }

  lemma TakesOne(ts: seq<Token>, i: nat, d: Depths, e: Depths, t: Token)
    requires i < |ts| && ts[i] == t && !(t.value == ";" && d.AllZero()) && Nest(d, t.value) == (e, false)
    ensures Takes(ts, i, d, [t], e)
  {
    hide TakeValue, Nest;
    PrefixedNothing(TakeValue(ts, i, d));
    TakeValueStep(ts, i, d, [], []);
    assert [] + [t] == [t];
  }

  lemma TakesThen(ts: seq<Token>, i: nat, d: Depths, a: seq<Token>, e: Depths, b: seq<Token>, f: Depths)
    requires Takes(ts, i, d, a, e) && Takes(ts, i + |a|, e, b, f)
    ensures Takes(ts, i, d, a + b, f)
  {
    hide TakeValue;
    PrefixedTwice(a, b, TakeValue(ts, i + |a| + |b|, f));
  }

  lemma QuietStep(d: Depths, t: Token)
    requires Quiet(t)
    ensures Nest(d, t.value) == (d, false) && t.value != ";"
  {
  }

  lemma {:induction false} TakesQuiet(ts: seq<Token>, i: nat, d: Depths, seg: seq<Token>)
    requires At(ts, i, seg) && forall t | t in seg :: Quiet(t)
    decreases |seg|
    ensures Takes(ts, i, d, seg, d)
  {
    hide Takes, Quiet, Nest;
    if seg == [] {
      TakesNothing(ts, i, d);
    } else {
      assert seg == [seg[0]] + seg[1..];
      AtSplit(ts, i, [seg[0]], seg[1..]);
      AtFirst(ts, i, seg);
      hide At;
      QuietStep(d, seg[0]);
      TakesOne(ts, i, d, d, seg[0]);
      TakesQuiet(ts, i + 1, d, seg[1..]);
      TakesThen(ts, i, d, [seg[0]], d, seg[1..], d);
    }
  }

  lemma PrefixedTwice(a: seq<Token>, b: seq<Token>, v: DtsGrammar.ValueTokens)
    ensures Prefixed(a, [], Prefixed(b, [], v)) == Prefixed(a + b, [], v)
  {
    assert a + (b + v.values) == a + b + v.values;
    assert [] + v.issues == v.issues;
  }

  const ZERO: Depths := Depths(0, 0, 0)

  predicate Brackets(open: string, close: string) {
    (open == "<" && close == ">") || (open == "[" && close == "]")
  }

  lemma BracketsNest(open: string, close: string)
    requires Brackets(open, close)
    ensures open != ";" && close != ";"
    ensures Nest(ZERO, open).1 == false && Nest(Nest(ZERO, open).0, close) == (ZERO, false)
  {
  }

  lemma TakesBracketed(ts: seq<Token>, i: nat, open: string, inner: seq<Token>, close: string, line: nat)
    requires Brackets(open, close)
    requires At(ts, i, P(open, line) + (inner + P(close, line))) && forall t | t in inner :: Quiet(t)
    ensures Takes(ts, i, ZERO, P(open, line) + (inner + P(close, line)), ZERO)
  {
    hide Takes, Nest, At, Quiet, Brackets, Depths.AllZero;
    var deep := Nest(ZERO, open).0;
    var j := i + 1 + |inner|;
    BracketsNest(open, close);
    AtSplit(ts, i, P(open, line), inner + P(close, line));
    AtSplit(ts, i + 1, inner, P(close, line));
    AtFirst(ts, i, P(open, line));
    AtFirst(ts, j, P(close, line));
    TakesOne(ts, i, ZERO, deep, P(open, line)[0]);
    TakesQuiet(ts, i + 1, deep, inner);
    TakesOne(ts, j, deep, ZERO, P(close, line)[0]);
    TakesThen(ts, i + 1, deep, inner, deep, P(close, line), ZERO);
    TakesThen(ts, i, ZERO, P(open, line), deep, inner + P(close, line), ZERO);
  }

  lemma {:induction false} WordsAreQuiet(words: seq<string>, line: nat)
    requires forall w | w in words :: IsWord(w)
    ensures forall t | t in WordsTokens(words, line) :: Quiet(t)
  {
    if words != [] {
      IsInert(words[0]);
      WordsAreQuiet(words[1..], line);
    }
  }

  lemma IsInert(w: string)
    requires IsWord(w)
    ensures InertString(w)
  {
    assert w[0] in w;
  }

  lemma {:induction false} AtomsAreQuiet(atoms: seq<Atom>, line: nat)
    requires forall a | a in atoms :: PrintableAtom(a)
    ensures forall t | t in AtomsTokens(atoms, line) :: Quiet(t)
  {
    if atoms != [] {
      assert PrintableAtom(atoms[0]);
      match atoms[0] {
        case Number(n) => PrintedNumberIsWord(n); IsInert(DtsText.PrintNumber(n));
        case RefName(l) => IsInert(l);
        case RawAtom(t) => IsInert(t);
      }
      AtomsAreQuiet(atoms[1..], line);
    }
  }

  lemma {:induction false} StringsAreQuiet(items: seq<string>, line: nat)
    requires forall s | s in items :: InertString(s)
    ensures forall t | t in StringsTokens(items, line) :: Quiet(t)
  {
    if |items| > 1 {
      StringsAreQuiet(items[1..], line);
    }
  }

  lemma TakesPart(ts: seq<Token>, i: nat, p: Part, line: nat)
    requires PrintablePart(p) && InertPart(p) && At(ts, i, PartTokens(p, line))
    ensures Takes(ts, i, ZERO, PartTokens(p, line), ZERO)
  {
    hide Takes, At, Quiet, IsWord, DtsText.IsPlainByte, DtsText.IsHexByte, PrintableAtom, AtomsTokens, WordsTokens, StringsTokens;
    match p
    case Cells(atoms) =>
      AtomsAreQuiet(atoms, line);
      TakesBracketed(ts, i, "<", AtomsTokens(atoms, line), ">", line);
    case Strings(items) =>
      StringsAreQuiet(items, line);
      TakesQuiet(ts, i, ZERO, PartTokens(p, line));
    case Bytes(items) =>
      WordsAreQuiet(items, line);
      TakesBracketed(ts, i, "[", WordsTokens(items, line), "]", line);
    case Raw(items) =>
      WordsAreQuiet(items, line);
      TakesQuiet(ts, i, ZERO, PartTokens(p, line));
  }

  lemma ValueTokensUnfold(parts: seq<Part>, line: nat)
    ensures DtsValueRoundTrip.ValueTokens(parts, line) ==
      if parts == [] then [] else PartTokens(parts[0], line) + DtsValueRoundTrip.ValueTokens(parts[1..], line)
  {
    hide PartTokens;
  }

  lemma {:induction false} TakesParts(ts: seq<Token>, i: nat, parts: seq<Part>, line: nat)
    requires forall p | p in parts :: PrintablePart(p) && InertPart(p)
    requires At(ts, i, DtsValueRoundTrip.ValueTokens(parts, line))
    decreases |parts|
    ensures Takes(ts, i, ZERO, DtsValueRoundTrip.ValueTokens(parts, line), ZERO)
  {
    hide Takes, PrintablePart, InertPart, At, PartTokens, DtsValueRoundTrip.ValueTokens, Depths.AllZero;
    AtIsInside(ts, i, DtsValueRoundTrip.ValueTokens(parts, line));
    ValueTokensUnfold(parts, line);
    if parts == [] {
      TakesNothing(ts, i, ZERO);
    } else {
      var head, tail := PartTokens(parts[0], line), DtsValueRoundTrip.ValueTokens(parts[1..], line);
      AtSplit(ts, i, head, tail);
      TakesPart(ts, i, parts[0], line);
      TakesParts(ts, i + |head|, parts[1..], line);
      TakesThen(ts, i, ZERO, head, ZERO, tail, ZERO);
    }
  }

  lemma AtIsInside(ts: seq<Token>, i: nat, seg: seq<Token>)
    requires At(ts, i, seg)
    ensures i + |seg| <= |ts|
  {
  }

  lemma TakesEnd(ts: seq<Token>, i: nat, value: seq<Token>)
    requires Takes(ts, i, ZERO, value, ZERO) && i + |value| < |ts| && ts[i + |value|].value == ";"
    ensures TakeValue(ts, i, ZERO) == DtsGrammar.ValueTokens(value, i + |value| + 1, [])
  {
    assert TakeValue(ts, i + |value|, ZERO) == DtsGrammar.ValueTokens([], i + |value| + 1, []);
    hide TakeValue;
    assert value + [] == value;
  }

  /** A printed value is taken whole, with its semicolon and without an issue. */
  lemma TakesValue(ts: seq<Token>, i: nat, parts: seq<Part>, line: nat)
    requires forall p | p in parts :: PrintablePart(p) && InertPart(p)
    requires At(ts, i, DtsValueRoundTrip.ValueTokens(parts, line) + P(";", line))
    ensures
      var value := DtsValueRoundTrip.ValueTokens(parts, line);
      i + |value| < |ts| && TakeValue(ts, i, ZERO) == DtsGrammar.ValueTokens(value, i + |value| + 1, [])
  {
    hide PrintablePart, InertPart, At, Takes, DtsValueRoundTrip.ValueTokens, TakeValue;
    var value := DtsValueRoundTrip.ValueTokens(parts, line);
    AtSplit(ts, i, value, P(";", line));
    AtFirst(ts, i + |value|, P(";", line));
    TakesParts(ts, i, parts, line);
    TakesEnd(ts, i, value);
  }

  // ----- the state behind a block -----

  function StatementProperty(s: Statement, line: nat): Property {
    match s
    case Flag(_, name) => Property(name, [], true, line)
    case Assign(_, name, parts) => Property(name, parts, false, line)
  }

  function EnterStatements(st: PState, path: string, ss: seq<Statement>, line: nat): (r: PState)
    requires path in st.nodes
    ensures r.nodes.Keys == st.nodes.Keys && r.pos == st.pos
    decreases |ss|
  {
    if ss == [] then st
    else EnterStatements(SetProperty(st, path, ss[0].name, StatementProperty(ss[0], line)), path, ss[1..], line)
  }

  function BlockPath(parent: Option<string>, b: Block): string {
    Declaration(parent, b.name).Path()
  }

  function Header0(st: PState, parent: Option<string>, b: Block, line: nat): (r: PState)
    ensures BlockPath(parent, b) in r.nodes && Extends(st, r) && r.pos == st.pos
  {
    Declare(st, Node(BlockPath(parent, b), b.name, b.labels, map[], [], line), parent, line)
  }

  /** The header, then the properties, then the children, in order; the position is left alone. */
  function Enter(st: PState, parent: Option<string>, b: Block, line: nat): (r: PState)
    ensures Extends(st, r) && BlockPath(parent, b) in r.nodes && r.pos == st.pos
    decreases b, 1
  {
    var path := BlockPath(parent, b);
    var st2 := EnterStatements(Header0(st, parent, b, line), path, b.statements, line);
    EnterBlocks(st2, path, b, b.children, line)
  }

  function EnterBlocks(st: PState, path: string, parent: Block, bs: seq<Block>, line: nat): (r: PState)
    requires forall c | c in bs :: c in parent.children
    ensures Extends(st, r) && r.pos == st.pos
    decreases parent, 0, |bs|
  {
    if bs == [] then st
    else
      assert bs[0] in bs;
      assert exists i | 0 <= i < |parent.children| :: parent.children[i] == bs[0];
      EnterBlocks(Enter(st, Some(path), bs[0], line), path, parent, bs[1..], line)
  }

  /** Entering commutes with moving the cursor. */
  lemma {:induction false} StatementsElsewhere(st: PState, path: string, ss: seq<Statement>, line: nat, pos: nat)
    requires path in st.nodes
    ensures EnterStatements(st.(pos := pos), path, ss, line) == EnterStatements(st, path, ss, line).(pos := pos)
    decreases |ss|
  {
    if ss != [] {
      StatementsElsewhere(SetProperty(st, path, ss[0].name, StatementProperty(ss[0], line)), path, ss[1..], line, pos);
    }
  }

  lemma HeaderElsewhere(st: PState, parent: Option<string>, b: Block, line: nat, pos: nat)
    ensures Header0(st.(pos := pos), parent, b, line) == Header0(st, parent, b, line).(pos := pos)
  {
  }

  lemma {:induction false} EnterElsewhere(st: PState, parent: Option<string>, b: Block, line: nat, pos: nat)
    ensures Enter(st.(pos := pos), parent, b, line) == Enter(st, parent, b, line).(pos := pos)
    decreases b, 1
  {
    hide Header0, EnterBlocks, EnterStatements;
    var path := BlockPath(parent, b);
    HeaderElsewhere(st, parent, b, line, pos);
    StatementsElsewhere(Header0(st, parent, b, line), path, b.statements, line, pos);
    EnterBlocksElsewhere(EnterStatements(Header0(st, parent, b, line), path, b.statements, line),
                         path, b, b.children, line, pos);
  }

  lemma {:induction false} EnterBlocksElsewhere(
      st: PState, path: string, parent: Block, bs: seq<Block>, line: nat, pos: nat)
    requires forall c | c in bs :: c in parent.children
    ensures EnterBlocks(st.(pos := pos), path, parent, bs, line) ==
            EnterBlocks(st, path, parent, bs, line).(pos := pos)
    decreases parent, 0, |bs|
  {
    hide Enter;
    if bs != [] {
      assert bs[0] in bs;
      var i :| 0 <= i < |parent.children| && parent.children[i] == bs[0];
      EnterElsewhere(st, Some(path), parent.children[i], line, pos);
      EnterBlocksElsewhere(Enter(st, Some(path), bs[0], line), path, parent, bs[1..], line, pos);
    }
  }

  // ----- the parse of a block's tokens -----

  // The branches of the member parser, by the mark behind the header.

  lemma MemberAssigns(ts: seq<Token>, st: PState, path: string, h: Header, name: string)
    requires st.pos < |ts| && path in st.nodes
    requires ReadHeader(ts, Header(st.pos, [], [])) == h && LastOr(h.prefix, "") == name
    requires h.pos < |ts| && ts[h.pos].value == "=" && name != ""
    ensures ParseMember(ts, st, path) == Assigned(ts, st.(pos := h.pos + 1), path, name, ts[st.pos].line)
  {
    hide ReadHeader, ParseBlock, JoinPath, Declare, SkipUntil, SkipBalanced, Assigned, LastOr;
  }

  lemma MemberOpens(ts: seq<Token>, st: PState, path: string, h: Header, name: string)
    requires st.pos < |ts| && path in st.nodes
    requires ReadHeader(ts, Header(st.pos, [], [])) == h && LastOr(h.prefix, "") == name
    requires h.pos < |ts| && ts[h.pos].value == "{" && HeaderWord(name)
    ensures
      var child := JoinPath(path, name);
      var st2 := Declare(st.(pos := h.pos + 1), Node(child, name, h.labels, map[], [], ts[st.pos].line),
                         Some(path), ts[h.pos].line);
      child in st2.nodes && st2.pos == h.pos + 1 && ParseMember(ts, st, path) == ParseBlock(ts, st2, child)
  {
    hide ReadHeader, TakeValue, ParseBlock, ParseParts, JoinPath, SkipUntil, SkipBalanced;
  }

  lemma SetPropertyElsewhere(st: PState, path: string, name: string, p: Property, pos: nat)
    requires path in st.nodes
    ensures SetProperty(st.(pos := pos), path, name, p) == SetProperty(st, path, name, p).(pos := pos)
  {
  }

  /** The first word of a statement or child header. */
  lemma FullStarts(front: seq<string>, name: string, line: nat)
    requires (forall w | w in front :: IsWord(w)) && IsWord(name)
    ensures HeaderWord(name) && FullTokens(front, name, line) != []
    ensures FullTokens(front, name, line)[0].line == line && Starts(FullTokens(front, name, line)[0].value)
  {
    hide IsWord, HeaderWord, Starts, FullTokens;
    WordIsNoSyntax(name);
    FullIsHeader(front, name, line);
    if front != [] {
      assert front[0] in front;
      WordIsNoSyntax(front[0]);
    }
  }

  lemma ParsesFlag(ts: seq<Token>, st: PState, path: string, front: seq<string>, name: string, line: nat)
    requires (forall w | w in front :: IsWord(w)) && IsWord(name) && path in st.nodes
    requires At(ts, st.pos, FullTokens(front, name, line) + P(";", line))
    ensures st.pos < |ts| && Starts(ts[st.pos].value)
    ensures ParseMember(ts, st, path) == SetProperty(st, path, name, Property(name, [], true, line))
              .(pos := st.pos + |FullTokens(front, name, line)| + 1)
  {
    hide ReadHeader, ParseMember, At, IsWord, HeaderWord, Starts, FullTokens, SetProperty, LastOr;
    FullStarts(front, name, line);
    AtFirst(ts, st.pos, FullTokens(front, name, line) + P(";", line));
    ReadsName(ts, st.pos, front, name, ";", [], line);
    NameIsNotEmpty(name);
    var h := ReadHeader(ts, Header(st.pos, [], []));
    MemberFlags(ts, st, path, h, name);
    SetPropertyElsewhere(st, path, name, Property(name, [], true, line), h.pos + 1);
  }

  lemma MemberFlags(ts: seq<Token>, st: PState, path: string, h: Header, name: string)
    requires st.pos < |ts| && path in st.nodes
    requires ReadHeader(ts, Header(st.pos, [], [])) == h && LastOr(h.prefix, "") == name
    requires h.pos < |ts| && ts[h.pos].value == ";" && name != ""
    ensures ParseMember(ts, st, path) ==
            SetProperty(st.(pos := h.pos + 1), path, name, Property(name, [], true, ts[st.pos].line))
  {
    hide ReadHeader, ParseBlock, JoinPath, Declare, SkipUntil, SkipBalanced, Assigned, LastOr, SetProperty;
  }

  lemma AssignTokens(ts: seq<Token>, i: nat, front: seq<string>, name: string, parts: seq<Part>, line: nat)
    requires At(ts, i, StatementTokens(Assign(front, name, parts), line))
    ensures
      var full := FullTokens(front, name, line);
      && At(ts, i, full + P("=", line))
      && At(ts, i + |full| + 1, DtsValueRoundTrip.ValueTokens(parts, line) + P(";", line))
      && |StatementTokens(Assign(front, name, parts), line)|
         == |full| + |DtsValueRoundTrip.ValueTokens(parts, line)| + 2
  {
    hide At, DtsValueRoundTrip.ValueTokens, FullTokens;
    var full, value := FullTokens(front, name, line), DtsValueRoundTrip.ValueTokens(parts, line);
    assert StatementTokens(Assign(front, name, parts), line) == full + P("=", line) + (value + P(";", line));
    AtSplit(ts, i, full + P("=", line), value + P(";", line));
  }

  /** What the token list says about an assignment standing at `i`. */
  lemma AssignAt(
      ts: seq<Token>, i: nat, front: seq<string>, name: string, parts: seq<Part>, line: nat, end: nat) returns (h: Header)
    requires GoodStatement(Assign(front, name, parts))
    requires At(ts, i, StatementTokens(Assign(front, name, parts), line))
    requires end == i + |StatementTokens(Assign(front, name, parts), line)|
    ensures i < |ts| && Starts(ts[i].value) && ts[i].line == line && HeaderWord(name)
    ensures ReadHeader(ts, Header(i, [], [])) == h && LastOr(h.prefix, "") == name
    ensures h.pos < |ts| && ts[h.pos].value == "="
    ensures
      var v := TakeValue(ts, h.pos + 1, Depths(0, 0, 0));
      v.pos == end && v.issues == [] && ParseParts(v.values) == parts
  {
    hide ReadHeader, TakeValue, ParseParts, IsWord, At, PrintablePart, InertPart, Starts, HeaderWord, StatementTokens,
      DtsValueRoundTrip.ValueTokens, FullTokens, LastOr;
    FullStarts(front, name, line);
    AssignTokens(ts, i, front, name, parts, line);
    AtFirst(ts, i, FullTokens(front, name, line) + P("=", line));
    ReadsName(ts, i, front, name, "=", [], line);
    h := ReadHeader(ts, Header(i, [], []));
    TakesValue(ts, h.pos + 1, parts, line);
    ParseValue(parts, line);
  }

  lemma NameIsNotEmpty(name: string)
    requires HeaderWord(name)
    ensures name != ""
  {
  }

  lemma ParsesAssign(
      ts: seq<Token>, st: PState, path: string, front: seq<string>, name: string, parts: seq<Part>, line: nat, end: nat)
    requires GoodStatement(Assign(front, name, parts)) && path in st.nodes
    requires At(ts, st.pos, StatementTokens(Assign(front, name, parts), line))
    requires end == st.pos + |StatementTokens(Assign(front, name, parts), line)|
    ensures st.pos < |ts| && Starts(ts[st.pos].value)
    ensures ParseMember(ts, st, path) == SetProperty(st.(pos := end), path, name, Property(name, parts, false, line))
  {
    hide ReadHeader, TakeValue, ParseMember, ParseParts, IsWord, At, GoodStatement, Starts, HeaderWord, SetProperty,
      StatementTokens, LastOr;
    var h := AssignAt(ts, st.pos, front, name, parts, line, end);
    NameIsNotEmpty(name);
    MemberAssigns(ts, st, path, h, name);
    assert st.issues + [] == st.issues;
    assert st.(pos := end, issues := st.issues + []) == st.(pos := end);
  }

  lemma ParsesStatement(ts: seq<Token>, st: PState, path: string, s: Statement, line: nat)
    requires GoodStatement(s) && path in st.nodes
    requires At(ts, st.pos, StatementTokens(s, line))
    ensures st.pos < |ts| && Starts(ts[st.pos].value)
    ensures ParseMember(ts, st, path) ==
            SetProperty(st, path, s.name, StatementProperty(s, line)).(pos := st.pos + |StatementTokens(s, line)|)
  {
    hide ParseMember, At, SetProperty, Starts, FullTokens;
    match s
    case Flag(front, name) => ParsesFlag(ts, st, path, front, name, line);
    case Assign(front, name, parts) =>
      var end := st.pos + |StatementTokens(s, line)|;
      ParsesAssign(ts, st, path, front, name, parts, line, end);
      SetPropertyElsewhere(st, path, name, Property(name, parts, false, line), end);
  }

  lemma StatementsUnfold(st: PState, path: string, ss: seq<Statement>, line: nat)
    requires path in st.nodes
    ensures StatementsTokens(ss, line) ==
      if ss == [] then [] else StatementTokens(ss[0], line) + StatementsTokens(ss[1..], line)
    ensures ss == [] ==> EnterStatements(st, path, ss, line) == st
    ensures ss != [] ==>
      var st0 := SetProperty(st, path, ss[0].name, StatementProperty(ss[0], line));
      path in st0.nodes && EnterStatements(st, path, ss, line) == EnterStatements(st0, path, ss[1..], line)
  {
    hide StatementTokens, StatementProperty;
  }

  lemma SetKeepsCursor(st: PState, path: string, name: string, p: Property)
    requires path in st.nodes
    ensures SetProperty(st, path, name, p).pos == st.pos && path in SetProperty(st, path, name, p).nodes
  {
  }

  lemma {:induction false} ParsesStatements(ts: seq<Token>, st: PState, path: string, ss: seq<Statement>, line: nat)
    requires path in st.nodes && forall s | s in ss :: GoodStatement(s)
    requires At(ts, st.pos, StatementsTokens(ss, line))
    ensures ParseBlock(ts, st, path) ==
            ParseBlock(ts, EnterStatements(st, path, ss, line).(pos := st.pos + |StatementsTokens(ss, line)|), path)
    decreases |ss|
  {
    hide ParseMember, ParseBlock, StatementTokens, GoodStatement, StatementProperty, Starts, SetProperty, At,
      StatementsTokens, EnterStatements;
    StatementsUnfold(st, path, ss, line);
    if ss != [] {
      var head, tail := StatementTokens(ss[0], line), StatementsTokens(ss[1..], line);
      AtSplit(ts, st.pos, head, tail);
      ParsesStatement(ts, st, path, ss[0], line);
      var st0 := SetProperty(st, path, ss[0].name, StatementProperty(ss[0], line));
      SetKeepsCursor(st, path, ss[0].name, StatementProperty(ss[0], line));
      var st1 := st0.(pos := st.pos + |head|);
      BlockMember(ts, st, path);
      ParsesStatements(ts, st1, path, ss[1..], line);
      StatementsElsewhere(st0, path, ss[1..], line, st.pos + |head|);
    }
  }

  /** A block whose next token starts a statement parses that statement first. */
  lemma BlockMember(ts: seq<Token>, st: PState, path: string)
    requires path in st.nodes && st.pos < |ts| && Starts(ts[st.pos].value)
    ensures ParseBlock(ts, st, path) == ParseBlock(ts, ParseMember(ts, st, path), path)
  {
    hide ParseMember;
  }

  lemma NameIsHeaderWord(name: string)
    requires IsWord(name) || name == "/"
    ensures HeaderWord(name)
  {
    if name != "/" {
      WordIsNoSyntax(name);
    }
  }

  /** The header of a block up to its opening brace. */
  lemma ReadsBlockHeader(ts: seq<Token>, i: nat, b: Block, line: nat)
    requires (forall l | l in b.labels :: IsWord(l)) && forall w | w in b.front :: IsWord(w)
    requires IsWord(b.name) || b.name == "/"
    requires At(ts, i, LabelsTokens(b.labels, line) + (FullTokens(b.front, b.name, line) + P("{", line)))
    ensures
      var seg := FullTokens(b.front, b.name, line);
      var j := i + |LabelsTokens(b.labels, line)| + |seg|;
      && i < j < |ts| && ts[j] == P("{", line)[0] && ts[i].line == line
      && ReadHeader(ts, Header(i, [], [])) == Header(j, Values(seg), b.labels)
      && (forall other :: LastOr(Values(seg), other) == b.name)
      && ts[i].value == (if b.labels != [] then b.labels[0] else if b.front != [] then b.front[0] else b.name)
      && (b.labels == [] && b.front == [] ==> j == i + 1)
  {
    hide ReadHeader, At, IsWord, HeaderWord, Starts, LabelsTokens, FullTokens, LastOr;
    var labels, full := LabelsTokens(b.labels, line), FullTokens(b.front, b.name, line);
    NameIsHeaderWord(b.name);
    FirstLabel(b.labels, line);
    FullIsHeader(b.front, b.name, line);
    BareFull(b.name, line);
    AtSplit(ts, i, labels, full + P("{", line));
    if b.labels != [] {
      AtFirst(ts, i, labels);
    } else {
      AtFirst(ts, i, full + P("{", line));
    }
    ReadsLabels(ts, i, b.labels, [], line);
    ReadsName(ts, i + |labels|, b.front, b.name, "{", [] + b.labels, line);
    assert [] + b.labels == b.labels;
  }

  lemma FirstLabel(labels: seq<string>, line: nat)
    ensures labels == [] ==> LabelsTokens(labels, line) == []
    ensures labels != [] ==> LabelsTokens(labels, line) != [] && LabelsTokens(labels, line)[0] == Token(labels[0], Word, line)
  {
  }

  lemma BareFull(name: string, line: nat)
    ensures FullTokens([], name, line) == NameToken(name, line)
    ensures |FullTokens([], name, line)| == 1 && Values(FullTokens([], name, line)) == [name]
  {
  }

  lemma GoodLabels(b: Block)
    requires GoodBody(b)
    ensures (forall l | l in b.labels :: IsWord(l)) && forall w | w in b.front :: IsWord(w)
  {
    hide IsWord, GoodStatement;
  }

  lemma SplitBlock(ts: seq<Token>, i: nat, b: Block, line: nat)
    requires At(ts, i, BlockTokens(b, line))
    ensures
      var header := LabelsTokens(b.labels, line) + (FullTokens(b.front, b.name, line) + P("{", line));
      var statements, children := StatementsTokens(b.statements, line), BlocksTokens(b.children, line);
      var end := i + |header| + |statements| + |children|;
      && At(ts, i, header)
      && At(ts, i + |header|, statements)
      && At(ts, i + |header| + |statements|, children)
      && Is(ts, end, "}") && Is(ts, end + 1, ";")
      && |BlockTokens(b, line)| == |header| + |statements| + |children| + 2
  {
    var header := LabelsTokens(b.labels, line) + (FullTokens(b.front, b.name, line) + P("{", line));
    var statements, children := StatementsTokens(b.statements, line), BlocksTokens(b.children, line);
    hide FullTokens, LabelsTokens, StatementsTokens, BlocksTokens, At;
    var close := P("}", line) + P(";", line);
    assert BlockTokens(b, line) == header + (statements + (children + close));
    AtSplit(ts, i, header, statements + (children + close));
    AtSplit(ts, i + |header|, statements, children + close);
    AtSplit(ts, i + |header| + |statements|, children, close);
    var end := i + |header| + |statements| + |children|;
    AtSplit(ts, end, P("}", line), P(";", line));
    AtFirst(ts, end, P("}", line));
    AtFirst(ts, end + 1, P(";", line));
  }

  /** The body of a block, from behind its brace to behind its closing semicolon. */
  lemma {:induction false} ParsesBody(ts: seq<Token>, st: PState, path: string, b: Block, line: nat)
    requires GoodBody(b) && path in st.nodes
    requires
      var statements, children := StatementsTokens(b.statements, line), BlocksTokens(b.children, line);
      var end := st.pos + |statements| + |children|;
      && At(ts, st.pos, statements)
      && At(ts, st.pos + |statements|, children)
      && Is(ts, end, "}") && Is(ts, end + 1, ";")
    ensures ParseBlock(ts, st, path) ==
      EnterBlocks(EnterStatements(st, path, b.statements, line), path, b, b.children, line)
        .(pos := st.pos + |StatementsTokens(b.statements, line)| + |BlocksTokens(b.children, line)| + 2)
    decreases b, 1
  {
    hide ParseBlock, At, EnterStatements, EnterBlocks, StatementsTokens, BlocksTokens, GoodStatement, IsWord, Is;
    var p1 := st.pos + |StatementsTokens(b.statements, line)|;
    var p2 := p1 + |BlocksTokens(b.children, line)|;
    var s1 := EnterStatements(st, path, b.statements, line);
    ParsesStatements(ts, st, path, b.statements, line);
    ParsesBlocks(ts, s1.(pos := p1), path, b, b.children, line);
    EnterBlocksElsewhere(s1, path, b, b.children, line, p1);
    BlockCloses(ts, EnterBlocks(s1, path, b, b.children, line).(pos := p2), path);
  }

  lemma BlockCloses(ts: seq<Token>, st: PState, path: string)
    requires path in st.nodes && Is(ts, st.pos, "}") && Is(ts, st.pos + 1, ";")
    ensures ParseBlock(ts, st, path) == st.(pos := st.pos + 2)
  {
  }

  /** What the token list says about a block header standing at `i`. */
  lemma ChildHeaderAt(ts: seq<Token>, i: nat, b: Block, line: nat) returns (h: Header)
    requires (forall l | l in b.labels :: IsWord(l)) && (forall w | w in b.front :: IsWord(w)) && IsWord(b.name)
    requires At(ts, i, LabelsTokens(b.labels, line) + (FullTokens(b.front, b.name, line) + P("{", line)))
    ensures h.pos == i + |LabelsTokens(b.labels, line)| + |FullTokens(b.front, b.name, line)|
    ensures i <= h.pos < |ts| && ts[h.pos].value == "{" && ts[h.pos].line == line && ts[i].line == line
    ensures HeaderWord(b.name) && Starts(ts[i].value)
    ensures ReadHeader(ts, Header(i, [], [])) == h && h.labels == b.labels && LastOr(h.prefix, "") == b.name
  {
    hide ReadHeader, At, IsWord, Starts, HeaderWord, FullTokens, LabelsTokens, LastOr;
    ReadsBlockHeader(ts, i, b, line);
    h := ReadHeader(ts, Header(i, [], []));
    WordIsNoSyntax(b.name);
    if b.labels != [] {
      assert b.labels[0] in b.labels;
      WordIsNoSyntax(b.labels[0]);
    } else if b.front != [] {
      assert b.front[0] in b.front;
      WordIsNoSyntax(b.front[0]);
    }
  }

  /** A child block enters its node and goes on with its body. */
  lemma ParsesChildHeader(ts: seq<Token>, st: PState, path: string, b: Block, line: nat, behind: PState)
    requires (forall l | l in b.labels :: IsWord(l)) && (forall w | w in b.front :: IsWord(w)) && IsWord(b.name)
    requires path in st.nodes
    requires At(ts, st.pos, LabelsTokens(b.labels, line) + (FullTokens(b.front, b.name, line) + P("{", line)))
    requires behind == st.(pos := st.pos + |LabelsTokens(b.labels, line)| + |FullTokens(b.front, b.name, line)| + 1)
    ensures st.pos < |ts| && Starts(ts[st.pos].value) && behind.pos <= |ts|
    ensures ParseMember(ts, st, path) ==
            ParseBlock(ts, Header0(behind, Some(path), b, line), BlockPath(Some(path), b))
  {
    hide ParseBlock, ParseMember, ReadHeader, At, JoinPath, Declare, IsWord, Starts, HeaderWord, Header0, FullTokens,
      LabelsTokens, LastOr, P, BlockPath;
    var h := ChildHeaderAt(ts, st.pos, b, line);
    MemberOpens(ts, st, path, h, b.name);
    OpenedHeader(st, path, b, line, h.pos, behind);
  }

  lemma OpenedHeader(st: PState, path: string, b: Block, line: nat, j: nat, behind: PState)
    requires behind == st.(pos := j + 1)
    ensures BlockPath(Some(path), b) == JoinPath(path, b.name)
    ensures Header0(behind, Some(path), b, line) ==
            Declare(st.(pos := j + 1), Node(JoinPath(path, b.name), b.name, b.labels, map[], [], line), Some(path), line)
  {
    hide JoinPath, Declare;
  }

  lemma {:induction false} ParsesChild(ts: seq<Token>, st: PState, path: string, b: Block, line: nat)
    requires GoodBody(b) && IsWord(b.name) && path in st.nodes
    requires At(ts, st.pos, BlockTokens(b, line))
    ensures st.pos < |ts| && Starts(ts[st.pos].value)
    ensures ParseMember(ts, st, path) ==
            Enter(st, Some(path), b, line).(pos := st.pos + |BlockTokens(b, line)|)
    decreases b, 2
  {
    hide ParseBlock, ParseMember, EnterStatements, EnterBlocks, At, BlockTokens, Header0, Starts, StatementsTokens,
      BlocksTokens, LabelsTokens, FullTokens;
    SplitBlock(ts, st.pos, b, line);
    var j := st.pos + |LabelsTokens(b.labels, line)| + |FullTokens(b.front, b.name, line)| + 1;
    ParsesChildHeader(ts, st, path, b, line, st.(pos := j));
    var st2 := Header0(st.(pos := j), Some(path), b, line);
    ParsesBody(ts, st2, BlockPath(Some(path), b), b, line);
    EnterElsewhere(st, Some(path), b, line, j);
  }

  lemma {:induction false} ParsesBlocks(
      ts: seq<Token>, st: PState, path: string, parent: Block, bs: seq<Block>, line: nat)
    requires forall c | c in bs :: c in parent.children
    requires forall c | c in bs :: GoodBody(c) && IsWord(c.name)
    requires path in st.nodes && At(ts, st.pos, BlocksTokens(bs, line))
    ensures ParseBlock(ts, st, path) ==
            ParseBlock(ts, EnterBlocks(st, path, parent, bs, line).(pos := st.pos + |BlocksTokens(bs, line)|), path)
    decreases parent, 0, |bs|
  {
    hide ParseMember, ParseBlock, Enter, At, BlockTokens, GoodBody, IsWord, Starts;
    if bs != [] {
      var head, tail := BlockTokens(bs[0], line), BlocksTokens(bs[1..], line);
      assert bs[0] in bs;
      var i :| 0 <= i < |parent.children| && parent.children[i] == bs[0];
      AtSplit(ts, st.pos, head, tail);
      ParsesChild(ts, st, path, parent.children[i], line);
      BlockMember(ts, st, path);
      var st1 := Enter(st, Some(path), bs[0], line);
      ParsesBlocks(ts, st1.(pos := st.pos + |head|), path, parent, bs[1..], line);
      EnterBlocksElsewhere(st1, path, parent, bs[1..], line, st.pos + |head|);
    }
  }
}
