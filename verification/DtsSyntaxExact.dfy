/**
 The parser against the syntax: it reports nothing about the syntax exactly when the tokens divide into
 statements, and then its caveats are those of the directives it does not understand.
 */
module DtsSyntaxExact {
  import opened Wrappers
  import opened DtsScanner
  import opened DtsTree
  import opened DtsGrammar
  import opened DtsBrackets
  import opened DtsSyntax
  import opened DtsCompare
  import Tables = DtsTables

  // ----- issues are only ever added -----

  lemma CleanBefore(a: PState, b: PState)
    requires a.issues <= b.issues && Clean(b)
    ensures Clean(a)
  {
    assert forall i | i in a.issues :: i in b.issues;
  }

  /** Every repeated path that is reported is listed. */
  ghost predicate Noted(st: PState) {
    forall p, line | DuplicatePath(p, line) in st.issues :: p in st.duplicates
  }

  /** The parse went from one state to the other. */
  ghost predicate Follows(a: PState, b: PState) {
    a.issues <= b.issues && (Noted(a) ==> Noted(b))
  }

  lemma AddsIssues(a: PState, b: PState, more: seq<Issue>)
    requires b.issues == a.issues + more && b.duplicates == a.duplicates && forall i | i in more :: !i.DuplicatePath?
    ensures Follows(a, b)
  {
    assert forall i :: i in b.issues <==> i in a.issues || i in more;
  }

  lemma FollowsOn(a: PState, b: PState, c: PState)
    requires Follows(a, b) && Follows(b, c)
    ensures Follows(a, c)
  {
    hide Noted;
  }

  lemma OneMoreIssue(st: PState, issues: seq<Issue>, i: Issue)
    requires st.issues == issues + [i] && AboutSyntax(i)
    ensures !Clean(st)
  {
    assert i in st.issues;
  }

  /** The node of a block with this header. */
  function HeaderNode(ts: seq<Token>, st: PState, path: string, name: string): Node
    requires st.pos < |ts|
  {
    Node(path, name, ReadHeader(ts, Header(st.pos, [], [])).labels, map[], [], ts[st.pos].line)
  }

  /** The state in which the body of a block with this header starts. */
  function Inside(ts: seq<Token>, st: PState, node: Node, parent: Option<string>): PState
    requires st.pos < |ts| && ReadHeader(ts, Header(st.pos, [], [])).pos < |ts|
  {
    var at := ReadHeader(ts, Header(st.pos, [], [])).pos;
    Declare(st.(pos := at + 1), node, parent, ts[at].line)
  }

  /** The node of a named block, and of a top-level one. */
  function Child(ts: seq<Token>, st: PState, path: string): Node
    requires st.pos < |ts|
  {
    var name := LastOr(ReadHeader(ts, Header(st.pos, [], [])).prefix, "");
    HeaderNode(ts, st, JoinPath(path, name), name)
  }

  function Top(ts: seq<Token>, st: PState): (Node, Option<string>)
    requires st.pos < |ts|
  {
    var name := LastOr(ReadHeader(ts, Header(st.pos, [], [])).prefix, "/");
    (HeaderNode(ts, st, if name == "/" then "/" else JoinPath("/", name), name), if name == "/" then None else Some("/"))
  }

  lemma DeclareIsQuiet(st: PState, node: Node, parent: Option<string>, line: nat)
    ensures
      var r := Declare(st, node, parent, line);
      && node.path in r.nodes && r.pos == st.pos && r.unsupported == st.unsupported
      && Follows(st, r) && (NoSyntax(st.issues) ==> NoSyntax(r.issues))
  {
  }

  lemma InsideIsQuiet(ts: seq<Token>, st: PState, node: Node, parent: Option<string>)
    requires st.pos < |ts| && ReadHeader(ts, Header(st.pos, [], [])).pos < |ts|
    ensures
      var inner := Inside(ts, st, node, parent);
      && node.path in inner.nodes && inner.pos == ReadHeader(ts, Header(st.pos, [], [])).pos + 1
      && inner.unsupported == st.unsupported && Follows(st, inner) && (Clean(st) ==> Clean(inner))
  {
    var at := ReadHeader(ts, Header(st.pos, [], [])).pos;
    DeclareIsQuiet(st.(pos := at + 1), node, parent, ts[at].line);
    hide ReadHeader, Declare, NoSyntax;
  }

  /** What a member does to the position, the issues and the caveats. */
  lemma MemberCases(ts: seq<Token>, st: PState, path: string)
    requires st.pos < |ts| && path in st.nodes
    ensures
      var h := ReadHeader(ts, Header(st.pos, [], []));
      var unnamed := LastOr(h.prefix, "") == "";
      var r := ParseMember(ts, st, path);
      if h.pos == |ts| then
        r.issues == st.issues + [UnterminatedMember(path, ts[st.pos].line)] && r.duplicates == st.duplicates
      else if ts[h.pos].value == "{" && !unnamed then
        var node := Child(ts, st, path);
        var inner := Inside(ts, st, node, Some(path));
        node.path in inner.nodes && r == ParseBlock(ts, inner, node.path)
      else if unnamed then
        r.duplicates == st.duplicates && exists i :: AboutSyntax(i) && r.issues == st.issues + [i]
      else if ts[h.pos].value == "=" then
        var v := TakeValue(ts, h.pos + 1, Depths(0, 0, 0));
        && r.pos == v.pos && r.issues == st.issues + v.issues && r.unsupported == st.unsupported
        && r.duplicates == st.duplicates
      else
        && r.pos == h.pos + 1 && r.issues == st.issues && r.unsupported == st.unsupported
        && r.duplicates == st.duplicates
  {
    hide ReadHeader, ParseBlock, JoinPath, Declare, SkipUntil, SkipBalanced, TakeValue;
    var h := ReadHeader(ts, Header(st.pos, [], []));
    var first := ts[st.pos].line;
    assert AboutSyntax(UnnamedNode(first)) && AboutSyntax(UnnamedProperty(first));
    if h.pos < |ts| {
      InsideIsQuiet(ts, st, Child(ts, st, path), Some(path));
    }
  }

  lemma NodeCases(ts: seq<Token>, st: PState)
    requires st.pos < |ts|
    ensures
      var h := ReadHeader(ts, Header(st.pos, [], []));
      var r := ParseNode(ts, st, "/");
      if h.pos < |ts| && ts[h.pos].value == "{" then
        var (node, parent) := Top(ts, st);
        var inner := Inside(ts, st, node, parent);
        node.path in inner.nodes && r == ParseBlock(ts, inner, node.path)
      else r.duplicates == st.duplicates && exists i :: AboutSyntax(i) && r.issues == st.issues + [i]
  {
    var h := ReadHeader(ts, Header(st.pos, [], []));
    var first := ts[st.pos].line;
    assert AboutSyntax(UnterminatedNode(first)) && AboutSyntax(ExpectedNode(first));
    if h.pos < |ts| {
      InsideIsQuiet(ts, st, Top(ts, st).0, Top(ts, st).1);
    }
    hide ReadHeader, ParseBlock, JoinPath, Declare, SkipUntil;
  }

  /** One turn of the block loop. */
  lemma BlockCases(ts: seq<Token>, st: PState, path: string)
    requires st.pos <= |ts| && path in st.nodes
    ensures
      var r := ParseBlock(ts, st, path);
      if st.pos == |ts| then r.issues == st.issues + [UnterminatedBlock(path)] && r.duplicates == st.duplicates
      else if ts[st.pos].value == "}" then
        && r.issues == st.issues && r.unsupported == st.unsupported && r.duplicates == st.duplicates
        && r.pos == if Is(ts, st.pos + 1, ";") then st.pos + 2 else st.pos + 1
      else if ts[st.pos].value == ";" then r == ParseBlock(ts, st.(pos := st.pos + 1), path)
      else if IsDirective(ts, st.pos) then r == ParseBlock(ts, ConsumeDirective(ts, st), path)
      else r == ParseBlock(ts, ParseMember(ts, st, path), path)
  {
    hide ParseMember, ConsumeDirective;
  }

  lemma {:induction false} MemberFollows(ts: seq<Token>, st: PState, path: string)
    requires st.pos < |ts| && path in st.nodes
    ensures Follows(st, ParseMember(ts, st, path))
    decreases |ts| - st.pos, 0
  {
    hide ReadHeader, ParseMember, ParseBlock, TakeValue, Follows;
    var h := ReadHeader(ts, Header(st.pos, [], []));
    var r := ParseMember(ts, st, path);
    MemberCases(ts, st, path);
    if h.pos == |ts| {
      AddsIssues(st, r, [UnterminatedMember(path, ts[st.pos].line)]);
    } else if ts[h.pos].value == "{" && LastOr(h.prefix, "") != "" {
      var node := Child(ts, st, path);
      InsideIsQuiet(ts, st, node, Some(path));
      hide Child, Inside;
      var inner := Inside(ts, st, node, Some(path));
      BlockFollows(ts, inner, node.path);
      FollowsOn(st, inner, r);
    } else if LastOr(h.prefix, "") == "" {
      var i :| AboutSyntax(i) && r.issues == st.issues + [i];
      AddsIssues(st, r, [i]);
    } else if ts[h.pos].value == "=" {
      ValueIssuesOnly(ts, h.pos + 1, Depths(0, 0, 0));
      AddsIssues(st, r, TakeValue(ts, h.pos + 1, Depths(0, 0, 0)).issues);
    } else {
      Unchanged(st, r);
    }
  }

  lemma Unchanged(a: PState, b: PState)
    requires b.issues == a.issues && b.duplicates == a.duplicates
    ensures Follows(a, b)
  {
  }

  lemma {:induction false} BlockFollows(ts: seq<Token>, st: PState, path: string)
    requires st.pos <= |ts| && path in st.nodes
    ensures Follows(st, ParseBlock(ts, st, path))
    decreases |ts| - st.pos, 1
  {
    hide ParseMember, ParseBlock, ConsumeDirective, Follows;
    var r := ParseBlock(ts, st, path);
    BlockCases(ts, st, path);
    if st.pos == |ts| {
      AddsIssues(st, r, [UnterminatedBlock(path)]);
    } else if ts[st.pos].value == "}" {
      Unchanged(st, r);
    } else {
      var next :=
        if ts[st.pos].value == ";" then st.(pos := st.pos + 1)
        else if IsDirective(ts, st.pos) then ConsumeDirective(ts, st)
        else ParseMember(ts, st, path);
      if ts[st.pos].value == ";" || IsDirective(ts, st.pos) {
        Unchanged(st, next);
      } else {
        MemberFollows(ts, st, path);
      }
      BlockFollows(ts, next, path);
      FollowsOn(st, next, r);
    }
  }

  // ----- values -----

  lemma {:induction false} ValueIssuesOnly(ts: seq<Token>, i: nat, d: Depths)
    requires i <= |ts|
    ensures forall x | x in TakeValue(ts, i, d).issues :: x.Unbalanced? || x == UnterminatedValue
    decreases |ts| - i
  {
    hide Nest, Depths.AllZero;
    if i < |ts| && !(ts[i].value == ";" && d.AllZero()) {
      ValueIssuesOnly(ts, i + 1, Nest(d, ts[i].value).0);
    }
  }

  lemma ValueIsClean(ts: seq<Token>, lo: nat)
    requires lo <= |ts|
    ensures
      var v := TakeValue(ts, lo, Depths(0, 0, 0));
      NoSyntax(v.issues) <==> v.pos > lo && ValueFits(ts, lo, v.pos - 1)
  {
    ValueIssuesOnly(ts, lo, Depths(0, 0, 0));
    ValueExactly(ts, lo);
    hide TakeValue, EndsValue, ClosesNothing;
    var v := TakeValue(ts, lo, Depths(0, 0, 0));
    var end := lo + |v.values|;
    if NoSyntax(v.issues) {
      assert AboutSyntax(UnterminatedValue) && end < |ts|;
      forall k | lo <= k < end ensures !ClosesNothing(ts, lo, k) {
        assert AboutSyntax(Unbalanced(ts[k].value, ts[k].line));
      }
    }
    if v.pos > lo && ValueFits(ts, lo, v.pos - 1) {
      assert EndsValue(ts, lo, v.pos - 1) && v.pos - 1 == end < |ts|;
      forall value, line ensures Unbalanced(value, line) !in v.issues {
      }
    }
  }

  lemma ValueEnds(ts: seq<Token>, lo: nat, semi: nat)
    requires ValueFits(ts, lo, semi)
    ensures lo <= semi && TakeValue(ts, lo, Depths(0, 0, 0)).pos == semi + 1
  {
    ValueExactly(ts, lo);
    hide TakeValue, EndsValue, ClosesNothing;
    var end := lo + |TakeValue(ts, lo, Depths(0, 0, 0)).values|;
    assert EndsValue(ts, lo, semi) && end <= semi;
  }

  // ----- from the parse to the statements -----

  lemma CleanIssues(st: PState, r: PState, more: seq<Issue>)
    requires r.issues == st.issues + more
    ensures Clean(r) <==> Clean(st) && NoSyntax(more)
  {
    assert forall i :: i in r.issues <==> i in st.issues || i in more;
  }

  lemma {:induction false} MemberSound(ts: seq<Token>, st: PState, path: string) returns (p: Phrase)
    requires st.pos < |ts| && path in st.nodes && ts[st.pos].value !in {"}", ";"} && !IsDirective(ts, st.pos)
    requires Clean(ParseMember(ts, st, path))
    ensures p.at == st.pos && Fits(ts, p) && p.End() == ParseMember(ts, st, path).pos
    decreases |ts| - st.pos, 0
  {
    hide ReadHeader, ParseMember, ParseBlock, TakeValue, IsDirective, Words, Named, ValueFits, BodyFits, Clean;
    p := Empty(st.pos);
    var h := ReadHeader(ts, Header(st.pos, [], []));
    var r := ParseMember(ts, st, path);
    MemberCases(ts, st, path);
    HeaderExactly(ts, st.pos);
    if h.pos == |ts| {
      OneMoreIssue(r, st.issues, UnterminatedMember(path, ts[st.pos].line));
    } else if LastOr(h.prefix, "") == "" {
      var i :| AboutSyntax(i) && r.issues == st.issues + [i];
      OneMoreIssue(r, st.issues, i);
    } else if ts[h.pos].value == "{" {
      var node := Child(ts, st, path);
      InsideIsQuiet(ts, st, node, Some(path));
      hide Child, Inside;
      var body, close := BlockSound(ts, Inside(ts, st, node, Some(path)), node.path);
      p := Block(st.pos, h.pos, body, close, r.pos);
      assert BlockFits(ts, p);
    } else if ts[h.pos].value == "=" {
      var v := TakeValue(ts, h.pos + 1, Depths(0, 0, 0));
      CleanIssues(st, r, v.issues);
      ValueIsClean(ts, h.pos + 1);
      p := Assignment(st.pos, h.pos, v.pos - 1);
    } else {
      p := Flag(st.pos, h.pos);
    }
  }

  lemma BodyCons(ts: seq<Token>, p: Phrase, ps: seq<Phrase>, hi: nat)
    requires Fits(ts, p) && BodyFits(ts, ps, p.End(), hi)
    ensures BodyFits(ts, [p] + ps, p.at, hi)
  {
    hide Fits;
    assert ([p] + ps)[1..] == ps;
  }

  lemma {:induction false} BlockSound(ts: seq<Token>, st: PState, path: string) returns (ps: seq<Phrase>, close: nat)
    requires st.pos <= |ts| && path in st.nodes && Clean(ParseBlock(ts, st, path))
    ensures BodyFits(ts, ps, st.pos, close) && Is(ts, close, "}")
    ensures ParseBlock(ts, st, path).pos == if Is(ts, close + 1, ";") then close + 2 else close + 1
    decreases |ts| - st.pos, 1
  {
    hide ParseMember, ParseBlock, ConsumeDirective, Clean, DirectiveFits, Unfinished;
    ps, close := [], st.pos;
    var r := ParseBlock(ts, st, path);
    BlockCases(ts, st, path);
    if st.pos == |ts| {
      OneMoreIssue(r, st.issues, UnterminatedBlock(path));
    } else if ts[st.pos].value == "}" {
      assert BodyFits(ts, ps, st.pos, close);
    } else if ts[st.pos].value == ";" {
      ps, close := BlockSound(ts, st.(pos := st.pos + 1), path);
      BodyCons(ts, Empty(st.pos), ps, close);
      ps := [Empty(st.pos)] + ps;
    } else if IsDirective(ts, st.pos) {
      var p := DirectiveExactly(ts, st);
      ps, close := BlockSound(ts, ConsumeDirective(ts, st), path);
      if p.None? {
        NothingBehind(ts, ps, close);
      } else {
        BodyCons(ts, p.value, ps, close);
        ps := [p.value] + ps;
      }
    } else {
      var next := ParseMember(ts, st, path);
      BlockFollows(ts, next, path);
      CleanBefore(next, r);
      var p := MemberSound(ts, st, path);
      ps, close := BlockSound(ts, next, path);
      BodyCons(ts, p, ps, close);
      ps := [p] + ps;
    }
  }

  /** No statement starts behind the tokens. */
  lemma NothingBehind(ts: seq<Token>, ps: seq<Phrase>, close: nat)
    requires close < |ts|
    ensures !BodyFits(ts, ps, |ts|, close)
  {
    if ps != [] && ps[0].at == |ts| {
      assert !Fits(ts, ps[0]);
    }
  }

  // ----- from the statements to the parse -----

  /** A header inside a block starts with neither a semicolon nor a closing brace. */
  lemma MemberStarts(ts: seq<Token>, at: nat, stop: nat, end: string)
    requires MemberHeader(ts, at, stop, end)
    ensures at < stop < |ts| && ts[at].value !in {"}", ";"} && !IsDirective(ts, at)
  {
    hide IsLastWord, IsDirective;
  }

  lemma {:induction false} MemberComplete(ts: seq<Token>, st: PState, path: string, p: Phrase)
    requires st.pos < |ts| && path in st.nodes && Clean(st)
    requires Fits(ts, p) && p.at == st.pos && !p.Empty? && !p.Directive?
    ensures
      var r := ParseMember(ts, st, path);
      Clean(r) && r.pos == p.End() && r.unsupported == st.unsupported + Notes(ts, p)
    decreases p, 1
  {
    hide ReadHeader, ParseMember, ParseBlock, TakeValue, IsDirective, Words, Named, ValueFits, BodyFits, NoSyntax;
    MemberCases(ts, st, path);
    HeaderExactly(ts, st.pos);
    assert st.unsupported + [] == st.unsupported;
    match p {
      case Flag(at, semi) =>
        HeaderStops(ts, at, semi, ";");
      case Assignment(at, eq, semi) =>
        HeaderStops(ts, at, eq, "=");
        ValueEnds(ts, eq + 1, semi);
        ValueIsClean(ts, eq + 1);
        CleanIssues(st, ParseMember(ts, st, path), TakeValue(ts, eq + 1, Depths(0, 0, 0)).issues);
      case Block(at, open, body, close, end) =>
        HeaderStops(ts, at, open, "{");
        var node := Child(ts, st, path);
        InsideIsQuiet(ts, st, node, Some(path));
        hide Child, Inside;
        BlockComplete(ts, Inside(ts, st, node, Some(path)), node.path, body, close);
    }
  }

  /** What a fitting statement shows at its first token. */
  lemma FirstToken(ts: seq<Token>, p: Phrase)
    requires Fits(ts, p)
    ensures p.at < |ts| && ts[p.at].value != "}"
    ensures p.Empty? <==> ts[p.at].value == ";"
    ensures p.Directive? <==> IsDirective(ts, p.at)
  {
    hide DirectiveFits, BlockFits, ValueFits, MemberHeader;
    match p {
      case Empty(at) =>
      case Directive(_, _, _) => DirectiveFirst(ts, p);
      case Flag(at, semi) => MemberStarts(ts, at, semi, ";");
      case Assignment(at, eq, _) => MemberStarts(ts, at, eq, "=");
      case Block(at, open, _, _, _) => MemberStarts(ts, at, open, "{");
    }
  }

  lemma DirectiveFirst(ts: seq<Token>, p: Phrase)
    requires p.Directive? && DirectiveFits(ts, p)
    ensures IsDirective(ts, p.at)
  {
  }

  lemma BodyHead(ts: seq<Token>, ps: seq<Phrase>, lo: nat, hi: nat)
    requires ps != [] && BodyFits(ts, ps, lo, hi)
    ensures ps[0].at == lo && Fits(ts, ps[0]) && BodyFits(ts, ps[1..], ps[0].End(), hi)
    ensures BodyNotes(ts, ps) == Notes(ts, ps[0]) + BodyNotes(ts, ps[1..])
  {
    hide Fits, Notes;
  }

  lemma {:induction false} BlockComplete(ts: seq<Token>, st: PState, path: string, ps: seq<Phrase>, close: nat)
    requires st.pos <= |ts| && path in st.nodes && Clean(st)
    requires BodyFits(ts, ps, st.pos, close) && Is(ts, close, "}")
    ensures
      var r := ParseBlock(ts, st, path);
      && Clean(r) && r.unsupported == st.unsupported + BodyNotes(ts, ps)
      && r.pos == if Is(ts, close + 1, ";") then close + 2 else close + 1
    decreases ps, 2
  {
    hide ParseBlock, Fits, Notes, NoSyntax, BodyFits, BodyNotes;
    if ps == [] {
      ClosesHere(ts, st, path, close);
    } else {
      BodyHead(ts, ps, st.pos, close);
      var p, rest := ps[0], ps[1..];
      var next := StatementComplete(ts, st, path, p);
      BlockComplete(ts, next, path, rest, close);
      assert st.unsupported + Notes(ts, p) + BodyNotes(ts, rest) == st.unsupported + (Notes(ts, p) + BodyNotes(ts, rest));
    }
  }

  lemma ClosesHere(ts: seq<Token>, st: PState, path: string, close: nat)
    requires st.pos <= |ts| && path in st.nodes && BodyFits(ts, [], st.pos, close) && Is(ts, close, "}")
    ensures
      var r := ParseBlock(ts, st, path);
      && r.issues == st.issues && r.unsupported == st.unsupported + BodyNotes(ts, [])
      && r.pos == if Is(ts, close + 1, ";") then close + 2 else close + 1
  {
    BlockCases(ts, st, path);
    assert st.unsupported + [] == st.unsupported;
    hide ParseBlock;
  }

  /** One statement of a block. */
  lemma {:induction false} StatementComplete(ts: seq<Token>, st: PState, path: string, p: Phrase) returns (next: PState)
    requires st.pos <= |ts| && path in st.nodes && Clean(st) && Fits(ts, p) && p.at == st.pos
    ensures next.pos <= |ts| && path in next.nodes && ParseBlock(ts, st, path) == ParseBlock(ts, next, path)
    ensures Clean(next) && next.pos == p.End() && next.unsupported == st.unsupported + Notes(ts, p)
    decreases p, 2
  {
    hide ParseMember, ParseBlock, ConsumeDirective, DirectiveFits, Fits, NoSyntax, IsDirective;
    BlockCases(ts, st, path);
    FirstToken(ts, p);
    if p.Empty? {
      EndOfEmpty(ts, p);
      next := st.(pos := st.pos + 1);
      assert st.unsupported + [] == st.unsupported;
    } else if p.Directive? {
      DirectiveComplete(ts, st, p);
      next := ConsumeDirective(ts, st);
    } else {
      MemberComplete(ts, st, path, p);
      next := ParseMember(ts, st, path);
    }
  }

  lemma EndOfEmpty(ts: seq<Token>, p: Phrase)
    requires p.Empty?
    ensures p.End() == p.at + 1 && Notes(ts, p) == []
  {
  }

  lemma DirectiveComplete(ts: seq<Token>, st: PState, p: Phrase)
    requires st.pos < |ts| && p.Directive? && Fits(ts, p) && p.at == st.pos
    ensures
      var r := ConsumeDirective(ts, st);
      r.pos == p.End() && r.issues == st.issues && r.nodes == st.nodes && r.unsupported == st.unsupported + Notes(ts, p)
  {
    DirectiveFirst(ts, p);
    DirectiveEnds(ts, st, p);
    hide ConsumeDirective, DirectiveFits, Unfinished, DirectiveNotes;
    var q := DirectiveExactly(ts, st);
  }

  // ----- the top level -----

  /** One turn of the top-level loop. */
  lemma TopCases(ts: seq<Token>, st: PState)
    requires st.pos <= |ts|
    ensures
      var r := ParseTop(ts, st);
      if st.pos == |ts| then r == st
      else if ts[st.pos].value == ";" then r == ParseTop(ts, st.(pos := st.pos + 1))
      else if IsDirective(ts, st.pos) then r == ParseTop(ts, ConsumeDirective(ts, st))
      else
        var st1 := ParseNode(ts, st, "/");
        r == if st1.pos < |ts| then ParseTop(ts, AddIssue(st1, ExtraTopLevel(ts[st1.pos].line))) else st1
  {
    hide ParseNode, ConsumeDirective;
    if st.pos < |ts| && ts[st.pos].value != ";" && !IsDirective(ts, st.pos) {
      var st1 := ParseNode(ts, st, "/");
      if st1.pos == |ts| {
        assert ParseTop(ts, st1) == st1;
      }
    }
  }

  lemma NodeFollows(ts: seq<Token>, st: PState)
    requires st.pos < |ts|
    ensures Follows(st, ParseNode(ts, st, "/"))
  {
    hide ReadHeader, ParseNode, ParseBlock, Follows;
    NodeCases(ts, st);
    var h := ReadHeader(ts, Header(st.pos, [], []));
    var r := ParseNode(ts, st, "/");
    if h.pos < |ts| && ts[h.pos].value == "{" {
      var (node, parent) := Top(ts, st);
      InsideIsQuiet(ts, st, node, parent);
      hide Top, Inside;
      var inner := Inside(ts, st, node, parent);
      BlockFollows(ts, inner, node.path);
      FollowsOn(st, inner, r);
    } else {
      var i :| AboutSyntax(i) && r.issues == st.issues + [i];
      AddsIssues(st, r, [i]);
    }
  }

  lemma {:induction false} TopFollows(ts: seq<Token>, st: PState)
    requires st.pos <= |ts|
    ensures Follows(st, ParseTop(ts, st))
    decreases |ts| - st.pos
  {
    hide ParseTop, ParseNode, ConsumeDirective, Follows;
    TopCases(ts, st);
    var r := ParseTop(ts, st);
    if st.pos == |ts| {
      Unchanged(st, r);
    } else if ts[st.pos].value == ";" || IsDirective(ts, st.pos) {
      var next := if ts[st.pos].value == ";" then st.(pos := st.pos + 1) else ConsumeDirective(ts, st);
      Unchanged(st, next);
      TopFollows(ts, next);
      FollowsOn(st, next, r);
    } else {
      NodeFollows(ts, st);
      var st1 := ParseNode(ts, st, "/");
      if st1.pos < |ts| {
        var st2 := AddIssue(st1, ExtraTopLevel(ts[st1.pos].line));
        AddsIssues(st1, st2, [ExtraTopLevel(ts[st1.pos].line)]);
        TopFollows(ts, st2);
        FollowsOn(st1, st2, r);
        FollowsOn(st, st1, r);
      }
    }
  }

  /** A top-level node that leaves no issue and no token is a root. */
  lemma NodeSound(ts: seq<Token>, st: PState) returns (p: Phrase)
    requires st.pos < |ts| && ts[st.pos].value != ";" && !IsDirective(ts, st.pos)
    requires Clean(ParseNode(ts, st, "/")) && ParseNode(ts, st, "/").pos == |ts|
    ensures p.at == st.pos && RootFits(ts, p)
  {
    hide ReadHeader, ParseNode, ParseBlock, IsDirective, Words, Named, BodyFits, Clean;
    p := Empty(st.pos);
    var h := ReadHeader(ts, Header(st.pos, [], []));
    var r := ParseNode(ts, st, "/");
    NodeCases(ts, st);
    HeaderExactly(ts, st.pos);
    if h.pos < |ts| && ts[h.pos].value == "{" {
      var (node, parent) := Top(ts, st);
      InsideIsQuiet(ts, st, node, parent);
      hide Top, Inside;
      var body, close := BlockSound(ts, Inside(ts, st, node, parent), node.path);
      p := Block(st.pos, h.pos, body, close, r.pos);
      assert BlockFits(ts, p);
    } else {
      var i :| AboutSyntax(i) && r.issues == st.issues + [i];
      OneMoreIssue(r, st.issues, i);
    }
  }

  lemma NodeComplete(ts: seq<Token>, st: PState, p: Phrase)
    requires st.pos < |ts| && Clean(st) && p.at == st.pos && RootFits(ts, p)
    ensures
      var r := ParseNode(ts, st, "/");
      Clean(r) && r.pos == |ts| && r.unsupported == st.unsupported + Notes(ts, p)
  {
    hide ReadHeader, ParseNode, ParseBlock, IsDirective, Words, BodyFits, NoSyntax;
    NodeCases(ts, st);
    HeaderStops(ts, p.at, p.open, "{");
    var (node, parent) := Top(ts, st);
    InsideIsQuiet(ts, st, node, parent);
    hide Top, Inside;
    BlockComplete(ts, Inside(ts, st, node, parent), node.path, p.body, p.close);
  }

  lemma SourceCons(ts: seq<Token>, p: Phrase, front: seq<Phrase>, last: Last, at: nat)
    requires (p.Empty? || p.Directive?) && Fits(ts, p) && SourceFits(ts, p.End(), front, last, at)
    ensures SourceFits(ts, p.at, [p] + front, last, at)
  {
    BodyCons(ts, p, front, at);
    hide Fits, BodyFits, RootFits, Unfinished;
  }

  lemma {:induction false} TopSound(ts: seq<Token>, st: PState) returns (front: seq<Phrase>, last: Last, at: nat)
    requires st.pos <= |ts| && Clean(ParseTop(ts, st))
    ensures SourceFits(ts, st.pos, front, last, at)
    decreases |ts| - st.pos
  {
    hide ParseTop, ParseNode, ConsumeDirective, NoSyntax, DirectiveFits, Unfinished, RootFits, BodyFits, SourceFits;
    front, last, at := [], Nothing, st.pos;
    TopCases(ts, st);
    if st.pos == |ts| {
      NothingLeft(ts, Nothing, st.pos);
    } else if ts[st.pos].value == ";" {
      front, last, at := TopSound(ts, st.(pos := st.pos + 1));
      SourceCons(ts, Empty(st.pos), front, last, at);
      front := [Empty(st.pos)] + front;
    } else if IsDirective(ts, st.pos) {
      var p := DirectiveExactly(ts, st);
      if p.None? {
        last := OpenDirective;
        NothingLeft(ts, last, at);
      } else {
        front, last, at := TopSound(ts, ConsumeDirective(ts, st));
        SourceCons(ts, p.value, front, last, at);
        front := [p.value] + front;
      }
    } else {
      var st1 := ParseNode(ts, st, "/");
      if st1.pos < |ts| {
        var st2 := AddIssue(st1, ExtraTopLevel(ts[st1.pos].line));
        TopFollows(ts, st2);
        CleanBefore(st2, ParseTop(ts, st));
        OneMoreIssue(st2, st1.issues, ExtraTopLevel(ts[st1.pos].line));
      } else {
        var root := NodeSound(ts, st);
        last := Root(root);
        NothingLeft(ts, last, at);
      }
    }
  }

  lemma NothingLeft(ts: seq<Token>, last: Last, at: nat)
    requires at <= |ts|
    requires
      match last
      case Nothing => at == |ts|
      case Root(block) => block.at == at && RootFits(ts, block)
      case OpenDirective => Unfinished(ts, at)
    ensures SourceFits(ts, at, [], last, at)
  {
    hide RootFits, Unfinished;
  }

  lemma FrontHead(ts: seq<Token>, lo: nat, front: seq<Phrase>, last: Last, at: nat)
    requires front != [] && SourceFits(ts, lo, front, last, at)
    ensures
      var p := front[0];
      && p.at == lo && Fits(ts, p) && (p.Empty? || p.Directive?) && SourceFits(ts, p.End(), front[1..], last, at)
      && SourceNotes(ts, front, last, at) == Notes(ts, p) + SourceNotes(ts, front[1..], last, at)
  {
    BodyHead(ts, front, lo, at);
    hide Fits, BodyFits, BodyNotes, Notes, RootFits, Unfinished, DirectiveNotes;
    assert forall p | p in front[1..] :: p in front;
  }

  lemma FrontNone(ts: seq<Token>, lo: nat, last: Last, at: nat)
    requires SourceFits(ts, lo, [], last, at)
    ensures lo == at && SourceNotes(ts, [], last, at) == LastNotes(ts, last, at)
    ensures
      match last
      case Nothing => at == |ts|
      case Root(block) => block.at == at && RootFits(ts, block)
      case OpenDirective => Unfinished(ts, at)
  {
    assert [] + LastNotes(ts, last, at) == LastNotes(ts, last, at);
    hide RootFits, Unfinished, LastNotes;
  }

  lemma RootStarts(ts: seq<Token>, p: Phrase)
    requires RootFits(ts, p)
    ensures p.at < |ts| && ts[p.at].value != ";" && !IsDirective(ts, p.at)
  {
    hide IsDirective, BlockFits;
  }

  lemma {:induction false} TopComplete(ts: seq<Token>, st: PState, front: seq<Phrase>, last: Last, at: nat)
    requires st.pos <= |ts| && Clean(st) && SourceFits(ts, st.pos, front, last, at)
    ensures
      var r := ParseTop(ts, st);
      Clean(r) && r.unsupported == st.unsupported + SourceNotes(ts, front, last, at)
    decreases |front|
  {
    hide ParseTop, ParseNode, ConsumeDirective, NoSyntax, DirectiveFits, Unfinished, RootFits, SourceFits, SourceNotes, Fits, IsDirective;
    TopCases(ts, st);
    if front != [] {
      FrontHead(ts, st.pos, front, last, at);
      var p := front[0];
      FirstToken(ts, p);
      var next := if p.Empty? then st.(pos := st.pos + 1) else ConsumeDirective(ts, st);
      if p.Empty? {
        EndOfEmpty(ts, p);
        assert st.unsupported + [] == st.unsupported;
      } else {
        DirectiveComplete(ts, st, p);
      }
      TopComplete(ts, next, front[1..], last, at);
      var more := SourceNotes(ts, front[1..], last, at);
      assert st.unsupported + Notes(ts, p) + more == st.unsupported + (Notes(ts, p) + more);
    } else {
      FrontNone(ts, st.pos, last, at);
      match last {
        case Nothing =>
          assert st.unsupported + [] == st.unsupported;
        case Root(block) =>
          RootStarts(ts, block);
          NodeComplete(ts, st, block);
        case OpenDirective =>
          OpenIsConsumed(ts, st);
      }
    }
  }

  lemma OpenIsConsumed(ts: seq<Token>, st: PState)
    requires Unfinished(ts, st.pos)
    ensures IsDirective(ts, st.pos) && ts[st.pos].value != ";"
    ensures
      var r := ParseTop(ts, st);
      r.issues == st.issues && r.unsupported == st.unsupported + DirectiveNotes(ts, st.pos)
  {
    UnfinishedEnds(ts, st);
    assert IsDirective(ts, st.pos);
    hide ConsumeDirective, ParseNode, DirectiveFits, DirectiveNotes, Unfinished;
    var q := DirectiveExactly(ts, st);
    TopCases(ts, st);
    TopCases(ts, ConsumeDirective(ts, st));
  }

  // ----- the parsed tree -----

  lemma FinishAddsNoSyntax(st: PState, source: string)
    requires Finish(st, source).Ok?
    ensures
      var t := Finish(st, source).value;
      (NoSyntax(t.issues) <==> Clean(st)) && t.unsupported == st.unsupported
  {
    var made := Tables.FinishedParts(st, source);
    var bad := BuildPhandles(st.nodes).1;
    forall i | i in bad ensures !AboutSyntax(i) {
      Tables.PhandleReports(st.nodes, i);
    }
    Tables.LabelIssues(BuildLabels(st.nodes).1, made);
    var t := Finish(st, source).value;
    hide Finish, BuildLabels, BuildPhandles;
    assert forall i :: i in t.issues <==> i in st.issues || i in made || i in bad;
  }

  /**
   A parsed tree has no issue about the syntax exactly when the tokens divide into statements: directives and
   semicolons, then one root or a directive that the tokens cut off. Its caveats are then, in order, the
   directives that are not understood, wherever they stand.
   */
  lemma SyntaxExactly(ts: seq<Token>, source: string)
    requires ParseTokens(ts, source).Ok?
    ensures
      var t := ParseTokens(ts, source).value;
      && (NoSyntax(t.issues) <==> exists front, last, at :: SourceFits(ts, 0, front, last, at))
      && (forall front, last, at | SourceFits(ts, 0, front, last, at) :: t.unsupported == SourceNotes(ts, front, last, at))
  {
    var st := ParseTop(ts, START);
    FinishAddsNoSyntax(st, source);
    hide ParseTop, Finish, SourceFits, SourceNotes;
    if Clean(st) {
      var front, last, at := TopSound(ts, START);
    }
    forall front, last, at | SourceFits(ts, 0, front, last, at)
      ensures Clean(st) && st.unsupported == SourceNotes(ts, front, last, at)
    {
      TopComplete(ts, START, front, last, at);
      assert [] + SourceNotes(ts, front, last, at) == SourceNotes(ts, front, last, at);
    }
  }

  /** A comparison with a tree whose tokens do not divide into understood statements is never EQUIVALENT. */
  lemma OtherSyntaxIsNeverEquivalent(ts: seq<Token>, source: string, c: Comparison)
    requires ParseTokens(ts, source).Ok?
    requires c.left == ParseTokens(ts, source).value || c.right == ParseTokens(ts, source).value
    requires StatusOf(c) == EQUIVALENT
    ensures exists front, last, at :: SourceFits(ts, 0, front, last, at) && SourceNotes(ts, front, last, at) == []
  {
    SyntaxExactly(ts, source);
    hide ParseTokens, SourceFits, SourceNotes;
    var front, last, at :| SourceFits(ts, 0, front, last, at);
  }
}
