/**
 Directive statements in a source: which of them leave a caveat, and that they leave nothing else.
 */
module DtsDirectives {
  import opened Wrappers
  import opened Ordering
  import opened DtsScanner
  import opened DtsValues
  import opened DtsValueRoundTrip
  import opened DtsTree
  import opened DtsGrammar
  import opened DtsShape
  import opened DtsSource
  import opened DtsFile
  import opened DtsCompare

  // ----- the text and its tokens -----

  /** A directive named by a word, with labels, numbers and words behind it. */
  datatype Directive = Directive(word: string, args: seq<Atom>)

  predicate GoodDirective(d: Directive) {
    IsWord(d.word) && d.word[0] != '*' && forall a | a in d.args :: PlainAtom(a)
  }

  function StatementText(d: Directive): string {
    "/" + (d.word + ("/" + (" " + (Join(" ", Map(AtomText, d.args)) + "; "))))
  }

  function StatementTokensOf(d: Directive, line: nat): seq<Token> {
    P("/", line) + (W(d.word, line) + (P("/", line) + (AtomsTokens(d.args, line) + P(";", line))))
  }

  /** The version line, the directive and the root block. */
  function SourceText(d: Directive, root: Block): string {
    "/dts-v1/; " + (StatementText(d) + BlockText(root))
  }

  function SourceTokens(d: Directive, root: Block, line: nat): seq<Token> {
    DirectiveTokens(line) + (StatementTokensOf(d, line) + BlockTokens(root, line))
  }

  lemma ScansArgs(args: seq<Atom>, line: nat)
    requires forall a | a in args :: PlainAtom(a)
    ensures ScansTo(Join(" ", Map(AtomText, args)) + "; ", AtomsTokens(args, line) + P(";", line), line)
  {
    hide Lex;
    var text := Join(" ", Map(AtomText, args));
    forall rest ensures Lex(text + "; " + rest, line) == Prepend(AtomsTokens(args, line) + P(";", line), Lex(rest, line)) {
      assert text + "; " + rest == text + ("; " + rest);
      assert EndsHere("; " + rest);
      LexAtoms(args, "; " + rest, line);
      ScansPunct(";", "; ", line);
      AppendTokens(AtomsTokens(args, line), P(";", line), Lex(rest, line));
    }
  }

  lemma ScansStatementText(d: Directive, line: nat)
    requires GoodDirective(d)
    ensures ScansTo(StatementText(d), StatementTokensOf(d, line), line)
  {
    hide ScansTo, AtomsTokens, Join;
    var args := Join(" ", Map(AtomText, d.args)) + "; ";
    ScansArgs(d.args, line);
    ScansSpaceThen(args, AtomsTokens(d.args, line) + P(";", line), line);
    ScansSlashThen(" " + args, AtomsTokens(d.args, line) + P(";", line), line);
    ScansWordThen(d.word, "/" + (" " + args), P("/", line) + (AtomsTokens(d.args, line) + P(";", line)), line);
    ScansSlashThen(d.word + ("/" + (" " + args)), W(d.word, line) + (P("/", line) + (AtomsTokens(d.args, line) + P(";", line))), line);
  }

  lemma ScansSource(d: Directive, root: Block)
    requires GoodDirective(d) && GoodRoot(root)
    ensures Lex(SourceText(d, root), 1) == Ok(SourceTokens(d, root, 1))
  {
    hide Lex, BlockText, BlockTokens, StatementText, StatementTokensOf, DirectiveTokens;
    ScansDirective(1);
    ScansStatementText(d, 1);
    ScansBlock(root, 1);
    ScansConcat(StatementText(d), StatementTokensOf(d, 1), BlockText(root), BlockTokens(root, 1), 1);
    ScansConcat("/dts-v1/; ", DirectiveTokens(1), StatementText(d) + BlockText(root),
                StatementTokensOf(d, 1) + BlockTokens(root, 1), 1);
    assert SourceText(d, root) + [] == SourceText(d, root);
    LexNothing(SourceTokens(d, root, 1), 1);
  }

  // ----- the statement is consumed -----

  /** The token neither opens, closes nor ends anything. */
  predicate Inert(t: Token) {
    !OpensText(t.value) && !ClosesText(t.value) && t.value !in {";", "{"}
  }

  lemma WordIsInert(w: string, line: nat)
    requires IsWord(w)
    ensures Inert(Token(w, Word, line)) && w != "/"
  {
    assert w[0] in w;
  }

  lemma {:induction false} AtomsAreInert(atoms: seq<Atom>, line: nat)
    requires forall a | a in atoms :: PlainAtom(a)
    ensures forall t | t in AtomsTokens(atoms, line) :: Inert(t)
  {
    hide Inert, IsWord;
    if atoms != [] {
      AtomIsInert(atoms[0], line);
      AtomsAreInert(atoms[1..], line);
    }
  }

  lemma AtomIsInert(a: Atom, line: nat)
    requires PlainAtom(a)
    ensures forall t | t in AtomTokens(a, line) :: Inert(t)
  {
    hide Inert, IsWord;
    match a
    case RefName(l) =>
      WordIsInert(l, line);
      AmpersandIsInert(line);
    case Number(n) =>
      PrintedNumberIsWord(n);
      WordIsInert(AtomText(a), line);
    case RawAtom(t) =>
      WordIsInert(t, line);
    case MissingLabel =>
      MissingLabelIsWord();
      WordIsInert(AtomText(a), line);
  }

  lemma AmpersandIsInert(line: nat)
    ensures Inert(Token("&", Punct, line))
  {
  }

  lemma {:induction false} SkipsInert(ts: seq<Token>, i: nat, n: nat, terminators: set<string>)
    requires i + n < |ts| && terminators <= {";", "{"} && ";" in terminators
    requires (forall j | i <= j < i + n :: Inert(ts[j])) && ts[i + n].value == ";"
    ensures SkipUntil(ts, i, terminators, 0) == i + n + 1
    decreases n
  {
    if n > 0 {
      assert Inert(ts[i]);
      SkipsInert(ts, i + 1, n - 1, terminators);
    }
  }

  /** The caveat a directive leaves: none for the three that are understood. */
  function CaveatOf(d: Directive): seq<Unsupported> {
    if d.word in {"dts-v1", "plugin", "memreserve"} then [] else [Unsupported(d.word + "/", 1)]
  }

  lemma NameOf(w: string)
    ensures w + "/" in PLAIN_DIRECTIVES <==> w in {"dts-v1", "plugin", "memreserve"}
  {
    WithSlash(w, "dts-v1");
    WithSlash(w, "plugin");
    WithSlash(w, "memreserve");
    assert "dts-v1" + "/" == "dts-v1/" && "plugin" + "/" == "plugin/" && "memreserve" + "/" == "memreserve/";
  }

  lemma WithSlash(w: string, v: string)
    ensures w + "/" == v + "/" <==> w == v
  {
    assert (w + "/")[..|w + "/"| - 1] == w && (v + "/")[..|v + "/"| - 1] == v;
  }

  lemma ConsumesStatement(ts: seq<Token>, st: PState, d: Directive)
    requires GoodDirective(d) && At(ts, st.pos, StatementTokensOf(d, 1))
    requires !Is(ts, st.pos + |StatementTokensOf(d, 1)|, "{")
    ensures IsDirective(ts, st.pos) && !Is(ts, st.pos, ";")
    ensures ConsumeDirective(ts, st) ==
            st.(pos := st.pos + |StatementTokensOf(d, 1)|, unsupported := st.unsupported + CaveatOf(d))
  {
    var i, n := st.pos, |AtomsTokens(d.args, 1)|;
    StatementAt(ts, i, d);
    WordIsInert(d.word, 1);
    NameOf(d.word);
    SkipsInert(ts, i + 3, n, {";"});
    SkipsInert(ts, i + 3, n, {";", "{"});
    assert DirectiveName(ts, i) == (d.word + "/", i + 3);
    hide DirectiveName, SkipUntil, Inert;
    assert st.unsupported + [] == st.unsupported;
  }

  lemma StatementAt(ts: seq<Token>, i: nat, d: Directive)
    requires GoodDirective(d) && At(ts, i, StatementTokensOf(d, 1))
    ensures
      var n := |AtomsTokens(d.args, 1)|;
      && |StatementTokensOf(d, 1)| == n + 4 && i + n + 4 <= |ts|
      && ts[i] == Token("/", Punct, 1) && ts[i + 1] == Token(d.word, Word, 1) && ts[i + 2] == Token("/", Punct, 1)
      && (forall j | i + 3 <= j < i + 3 + n :: Inert(ts[j])) && ts[i + 3 + n].value == ";"
  {
    AtomsAreInert(d.args, 1);
    hide AtomsTokens, Inert, IsWord;
    var seg, args := StatementTokensOf(d, 1), AtomsTokens(d.args, 1);
    assert seg == [Token("/", Punct, 1), Token(d.word, Word, 1), Token("/", Punct, 1)] + args + [Token(";", Punct, 1)];
    assert forall k | 0 <= k < |seg| :: ts[i + k] == seg[k];
    assert ts[i + 0] == seg[0] && ts[i + 1] == seg[1] && ts[i + 2] == seg[2];
    forall j | i + 3 <= j < i + 3 + |args| ensures Inert(ts[j]) {
      assert ts[j] == seg[j - i] == args[j - i - 3];
    }
    assert ts[i + 3 + |args|] == seg[3 + |args|];
  }

  // ----- the caveats are carried along -----

  lemma {:induction false} StatementsCarry(st: PState, path: string, ss: seq<Statement>, u: seq<Unsupported>)
    requires path in st.nodes
    ensures EnterStatements(st.(unsupported := u), path, ss, 1) == EnterStatements(st, path, ss, 1).(unsupported := u)
    decreases |ss|
  {
    if ss != [] {
      StatementsCarry(SetProperty(st, path, ss[0].name, StatementProperty(ss[0], 1)), path, ss[1..], u);
    }
  }

  lemma VisitCarries(st: PState, v: Visit, u: seq<Unsupported>)
    ensures EnterOne(st.(unsupported := u), v) == EnterOne(st, v).(unsupported := u)
  {
    hide EnterStatements;
    StatementsCarry(Header0(st, v.parent, v.block, 1), v.Path(), v.block.statements, u);
  }

  lemma {:induction false} VisitsCarry(st: PState, vs: seq<Visit>, u: seq<Unsupported>)
    ensures EnterAll(st.(unsupported := u), vs) == EnterAll(st, vs).(unsupported := u)
    decreases |vs|
  {
    hide EnterOne;
    if vs != [] {
      VisitCarries(st, vs[0], u);
      VisitsCarry(EnterOne(st, vs[0]), vs[1..], u);
    }
  }

  lemma EnterCarries(root: Block, u: seq<Unsupported>)
    ensures Enter(START.(unsupported := u), None, root, 1) == Enter(START, None, root, 1).(unsupported := u)
  {
    hide Enter, EnterAll, Visits;
    EnterIsVisits(START, None, root);
    EnterIsVisits(START.(unsupported := u), None, root);
    VisitsCarry(START, Visits(None, root), u);
  }

  lemma FinishCarries(st: PState, source: string, u: seq<Unsupported>, pos: nat)
    ensures
      var a, b := Finish(st, source), Finish(st.(unsupported := u, pos := pos), source);
      a.Ok? == b.Ok? && (a.Ok? ==> b.value == a.value.(unsupported := u))
  {
    hide BuildLabels, BuildPhandles, WithChildren;
  }

  // ----- the source -----

  lemma ParsesSource(d: Directive, root: Block)
    requires GoodDirective(d) && GoodRoot(root)
    ensures
      var ts := SourceTokens(d, root, 1);
      ParseTop(ts, START) == Enter(START, None, root, 1).(pos := |ts|, unsupported := CaveatOf(d))
  {
    hide ParseTop, BlockTokens, Enter, GoodRoot, GoodDirective, StatementTokensOf, CaveatOf, SourceTokens, At, Is;
    var ts, n := SourceTokens(d, root, 1), |StatementTokensOf(d, 1)|;
    SourceAt(d, root);
    DirectiveIsConsumed(ts);
    RootIsNoBrace(ts, 4 + n, root, 1);
    StatementFirst(ts, d, n);
    RootLast(ts, START.(pos := 4 + n, unsupported := CaveatOf(d)), root);
    EnterElsewhere(START.(unsupported := CaveatOf(d)), None, root, 1, 4 + n);
    EnterCarries(root, CaveatOf(d));
  }

  lemma StatementFirst(ts: seq<Token>, d: Directive, n: nat)
    requires GoodDirective(d) && At(ts, 4, StatementTokensOf(d, 1)) && n == |StatementTokensOf(d, 1)| > 0
    requires !Is(ts, 4 + n, "{") && 4 + n <= |ts|
    ensures ParseTop(ts, START.(pos := 4)) == ParseTop(ts, START.(pos := 4 + n, unsupported := CaveatOf(d)))
  {
    hide ParseNode, IsDirective, ConsumeDirective, StatementTokensOf, CaveatOf, GoodDirective, At;
    ConsumesStatement(ts, START.(pos := 4), d);
    assert [] + CaveatOf(d) == CaveatOf(d);
  }

  lemma RootLast(ts: seq<Token>, st: PState, root: Block)
    requires GoodRoot(root) && At(ts, st.pos, BlockTokens(root, 1)) && |ts| == st.pos + |BlockTokens(root, 1)|
    ensures ParseTop(ts, st) == Enter(st, None, root, 1).(pos := |ts|)
  {
    hide ParseNode, IsDirective, ConsumeDirective, BlockTokens, Enter, GoodRoot, At;
    ParsesRoot(ts, st, root, 1);
  }

  lemma SourceAt(d: Directive, root: Block)
    ensures
      var ts := SourceTokens(d, root, 1);
      && At(ts, 0, DirectiveTokens(1)) && At(ts, 4, StatementTokensOf(d, 1))
      && At(ts, 4 + |StatementTokensOf(d, 1)|, BlockTokens(root, 1))
      && |ts| == 4 + |StatementTokensOf(d, 1)| + |BlockTokens(root, 1)| && |StatementTokensOf(d, 1)| > 0
  {
    hide BlockTokens, AtomsTokens;
    var ts := SourceTokens(d, root, 1);
    var head, middle, tail := DirectiveTokens(1), StatementTokensOf(d, 1), BlockTokens(root, 1);
    hide StatementTokensOf;
    assert ts[0..4] == head && ts[4..4 + |middle|] == middle;
    assert ts[4 + |middle|..4 + |middle| + |tail|] == tail;
  }

  lemma RootIsNoBrace(ts: seq<Token>, i: nat, b: Block, line: nat)
    requires GoodRoot(b) && At(ts, i, BlockTokens(b, line))
    ensures !Is(ts, i, "{")
  {
    hide BlockTokens, IsWord, StatementsTokens, BlocksTokens, P;
    BareFull("/", line);
    SplitBlock(ts, i, b, line);
    var labels := LabelsTokens(b.labels, line);
    AtSplit(ts, i, labels, FullTokens(b.front, b.name, line) + P("{", line));
    if b.labels != [] {
      assert b.labels[0] in b.labels;
      WordIsInert(b.labels[0], line);
      AtFirst(ts, i, labels);
    } else {
      AtSplit(ts, i, FullTokens(b.front, b.name, line), P("{", line));
      AtFirst(ts, i, FullTokens(b.front, b.name, line));
    }
  }

  /**
   A directive in front of the root changes nothing but the caveats: `/dts-v1/`, `/plugin/` and
   `/memreserve/` leave none, any other leaves its name, and then no comparison with the tree is EQUIVALENT.
   */
  lemma DirectiveLeavesCaveat(d: Directive, root: Block, source: string)
    requires GoodDirective(d) && GoodRoot(root)
    ensures
      var r, plain := ParseText(SourceText(d, root), source), ParseText(FileText(root), source);
      && r.Ok? && plain.Ok? && r.value == plain.value.(unsupported := CaveatOf(d))
      && (forall c: Comparison ::
            (c.left == r.value || c.right == r.value) && d.word !in {"dts-v1", "plugin", "memreserve"} ==>
            StatusOf(c) != EQUIVALENT)
  {
    hide Lex, ParseTop, Enter, Finish, SourceText, SourceTokens, FileText, FileTokens, GoodRoot, GoodDirective, DistinctSiblings;
    ScansSource(d, root);
    ScansFile(root);
    ParsesSource(d, root);
    ParsesFile(root);
    RepeatedSiblingsAreReported(root, source);
    var st := Enter(START, None, root, 1);
    FinishCarries(st.(pos := |FileTokens(root, 1)|), source, CaveatOf(d), |SourceTokens(d, root, 1)|);
    ParsedIsFinished(SourceTokens(d, root, 1), source);
    ParsedIsFinished(FileTokens(root, 1), source);
  }
}
