/**
 The whole-source round trip: what scanning and parsing a printed device tree returns, node by
 node, when no block has two children of the same name.
 */
module DtsFile {
  import opened Wrappers
  import opened Ordering
  import opened DtsScanner
  import opened DtsValues
  import opened DtsValueRoundTrip
  import opened DtsTree
  import opened DtsGrammar
  import opened DtsShape
  import opened DtsSource
  import opened DtsTables

  // ----- from the first token to the last -----

  lemma DirectiveIsConsumed(ts: seq<Token>)
    requires At(ts, 0, DirectiveTokens(1)) && |ts| > 4
    ensures ParseTop(ts, START) == ParseTop(ts, START.(pos := 4))
  {
    assert ts[0..4] == DirectiveTokens(1);
    assert ts[0] == DirectiveTokens(1)[0] && ts[1] == DirectiveTokens(1)[1];
    assert ts[2] == DirectiveTokens(1)[2] && ts[3] == DirectiveTokens(1)[3];
    hide ParseNode, AddIssue;
    assert IsDirective(ts, 0);
    assert "dts-v1" + "/" == "dts-v1/";
    assert DirectiveName(ts, 0) == ("dts-v1/", 3);
    assert SkipUntil(ts, 3, {";"}, 0) == 4;
    assert ConsumeDirective(ts, START) == START.(pos := 4);
  }

  /** The root header is not mistaken for a directive or an empty statement. */
  lemma RootHeaderAt(ts: seq<Token>, i: nat, b: Block, line: nat, j: nat)
    requires (forall l | l in b.labels :: IsWord(l)) && b.front == [] && b.name == "/"
    requires At(ts, i, LabelsTokens(b.labels, line) + (FullTokens([], "/", line) + P("{", line)))
    requires j == i + |LabelsTokens(b.labels, line)| + 1
    ensures i < j < |ts| && ts[j].value == "{" && ts[j].line == line && ts[i].line == line
    ensures !Is(ts, i, ";") && !IsDirective(ts, i)
    ensures ReadHeader(ts, Header(i, [], [])) == Header(j, [b.name], b.labels)
  {
    hide ReadHeader, At, IsWord, Starts, HeaderWord, FullTokens;
    BareFull("/", line);
    ReadsBlockHeader(ts, i, b, line);
    if b.labels != [] {
      assert b.labels[0] in b.labels;
      WordIsNoSyntax(b.labels[0]);
      assert Starts(ts[i].value);
      StartsNothingElse(ts[i].value);
    } else {
      assert ts[i + 1].value == "{";
    }
  }

  lemma StartsNothingElse(w: string)
    requires Starts(w)
    ensures w != ";" && w != "/"
  {
  }

  lemma NodeOpens(ts: seq<Token>, st: PState, h: Header)
    requires st.pos < |ts| && ReadHeader(ts, Header(st.pos, [], [])) == h && h.prefix == ["/"]
    requires st.pos <= h.pos < |ts| && ts[h.pos].value == "{"
    ensures
      var st2 := Declare(st.(pos := h.pos + 1), Node("/", "/", h.labels, map[], [], ts[st.pos].line),
                         None, ts[h.pos].line);
      && st2.pos == h.pos + 1 && "/" in st2.nodes
      && ParseNode(ts, st, "/") == ParseBlock(ts, st2, "/")
  {
    hide ReadHeader, ParseBlock, SkipUntil, Declare;
    assert LastOr(["/"], "/") == "/";
    DeclareEnters(st.(pos := h.pos + 1), Node("/", "/", h.labels, map[], [], ts[st.pos].line), None, ts[h.pos].line);
  }

  lemma DeclareEnters(st: PState, node: Node, parent: Option<string>, line: nat)
    ensures Declare(st, node, parent, line).pos == st.pos && node.path in Declare(st, node, parent, line).nodes
  {
  }

  lemma ParsesRoot(ts: seq<Token>, st: PState, b: Block, line: nat)
    requires GoodRoot(b) && At(ts, st.pos, BlockTokens(b, line))
    ensures st.pos < |ts| && !Is(ts, st.pos, ";") && !IsDirective(ts, st.pos)
    ensures ParseNode(ts, st, "/") == Enter(st, None, b, line).(pos := st.pos + |BlockTokens(b, line)|)
  {
    hide GoodBody, P, BlockPath, NameToken, ParseNode, ParseBlock, EnterStatements, EnterBlocks, At, BlockTokens, StatementsTokens, BlocksTokens,
      LabelsTokens, FullTokens, IsDirective, Is, Header0, IsWord;
    BareFull("/", line);
    OneMark("{", line);
    GoodLabels(b);
    SplitBlock(ts, st.pos, b, line);
    var j := st.pos + |LabelsTokens(b.labels, line)| + 2;
    ParsesRootHeader(ts, st, b, line, st.(pos := j));
    ParsesBody(ts, Header0(st.(pos := j), None, b, line), "/", b, line);
    EnterElsewhere(st, None, b, line, j);
  }

  /** The root block enters its node and goes on with its body. */
  lemma ParsesRootHeader(ts: seq<Token>, st: PState, b: Block, line: nat, behind: PState)
    requires (forall l | l in b.labels :: IsWord(l)) && b.front == [] && b.name == "/"
    requires At(ts, st.pos, LabelsTokens(b.labels, line) + (FullTokens([], "/", line) + P("{", line)))
    requires behind == st.(pos := st.pos + |LabelsTokens(b.labels, line)| + 2)
    ensures st.pos < |ts| && !Is(ts, st.pos, ";") && !IsDirective(ts, st.pos) && behind.pos <= |ts|
    ensures BlockPath(None, b) == "/"
    ensures ParseNode(ts, st, "/") == ParseBlock(ts, Header0(behind, None, b, line), "/")
  {
    hide ParseNode, ParseBlock, At, LabelsTokens, FullTokens, IsDirective, Is, Declare, IsWord;
    var j := st.pos + |LabelsTokens(b.labels, line)| + 1;
    RootHeaderAt(ts, st.pos, b, line, j);
    assert [b.name] == ["/"];
    NodeOpens(ts, st, Header(j, ["/"], b.labels));
  }

  lemma ParsesFile(root: Block)
    requires GoodRoot(root)
    ensures
      var ts := FileTokens(root, 1);
      ParseTop(ts, START) == Enter(START, None, root, 1).(pos := |ts|)
  {
    var ts := FileTokens(root, 1);
    var head, tail := DirectiveTokens(1), BlockTokens(root, 1);
    hide ParseNode, BlockTokens, Enter, IsDirective, ConsumeDirective, GoodRoot;
    assert At(ts, 0, head) && At(ts, 4, tail) by {
      assert ts[0..4] == head && ts[4..4 + |tail|] == tail;
    }
    EnterElsewhere(START, None, root, 1, 4);
    ParsesRoot(ts, START.(pos := 4), root, 1);
    DirectiveIsConsumed(ts);
  }

  // ----- the blocks in the order they are entered -----

  datatype Visit = Visit(parent: Option<string>, block: Block) {
    function Path(): string {
      BlockPath(parent, block)
    }
  }

  function Visits(parent: Option<string>, b: Block): seq<Visit>
    decreases b, 1
  {
    [Visit(parent, b)] + ChildVisits(BlockPath(parent, b), b, b.children)
  }

  function ChildVisits(path: string, parent: Block, bs: seq<Block>): seq<Visit>
    requires forall c | c in bs :: c in parent.children
    decreases parent, 0, |bs|
  {
    if bs == [] then []
    else
      assert bs[0] in bs;
      assert exists i | 0 <= i < |parent.children| :: parent.children[i] == bs[0];
      Visits(Some(path), bs[0]) + ChildVisits(path, parent, bs[1..])
  }

  function EnterOne(st: PState, v: Visit): (r: PState)
    ensures v.Path() in r.nodes && Extends(st, r)
  {
    EnterStatements(Header0(st, v.parent, v.block, 1), v.Path(), v.block.statements, 1)
  }

  function EnterAll(st: PState, vs: seq<Visit>): PState
    decreases |vs|
  {
    if vs == [] then st else EnterAll(EnterOne(st, vs[0]), vs[1..])
  }

  lemma {:induction false} EnterAllConcat(st: PState, a: seq<Visit>, b: seq<Visit>)
    ensures EnterAll(st, a + b) == EnterAll(EnterAll(st, a), b)
    decreases |a|
  {
    hide EnterOne;
    if a == [] {
      assert a + b == b;
    } else {
      assert (a + b)[1..] == a[1..] + b && (a + b)[0] == a[0];
      EnterAllConcat(EnterOne(st, a[0]), a[1..], b);
    }
  }

  /** Entering a block is entering its visits one by one. */
  lemma {:induction false} EnterIsVisits(st: PState, parent: Option<string>, b: Block)
    ensures Enter(st, parent, b, 1) == EnterAll(st, Visits(parent, b))
    decreases b, 1
  {
    hide EnterStatements, EnterBlocks, Header0, ChildVisits, EnterAll;
    var path := BlockPath(parent, b);
    var v := Visit(parent, b);
    var rest := ChildVisits(path, b, b.children);
    OneVisit(st, v);
    EnterAllConcat(st, [v], rest);
    EnterBlocksIsVisits(EnterOne(st, v), path, b, b.children);
  }

  lemma OneVisit(st: PState, v: Visit)
    ensures EnterAll(st, [v]) == EnterOne(st, v)
  {
    hide EnterOne;
    assert [v][1..] == [];
  }

  lemma {:induction false} EnterBlocksIsVisits(st: PState, path: string, parent: Block, bs: seq<Block>)
    requires forall c | c in bs :: c in parent.children
    ensures EnterBlocks(st, path, parent, bs, 1) == EnterAll(st, ChildVisits(path, parent, bs))
    decreases parent, 0, |bs|
  {
    hide Enter, Visits;
    if bs != [] {
      assert bs[0] in bs;
      var i :| 0 <= i < |parent.children| && parent.children[i] == bs[0];
      EnterIsVisits(st, Some(path), parent.children[i]);
      EnterBlocksIsVisits(Enter(st, Some(path), bs[0], 1), path, parent, bs[1..]);
      EnterAllConcat(st, Visits(Some(path), bs[0]), ChildVisits(path, parent, bs[1..]));
    }
  }

  // ----- what one visit changes -----

  /** The properties the statements leave: a repeated name keeps its last statement. */
  function Properties(ss: seq<Statement>): map<string, Property> {
    if ss == [] then map[]
    else
      var last := ss[|ss| - 1];
      Properties(ss[..|ss| - 1])[last.name := StatementProperty(last, 1)]
  }

  lemma {:induction false} StatementsSet(st: PState, path: string, all: seq<Statement>, k: nat)
    requires path in st.nodes && k <= |all|
    requires st.nodes[path].properties == Properties(all[..k])
    ensures EnterStatements(st, path, all[k..], 1) ==
            st.(nodes := st.nodes[path := st.nodes[path].(properties := Properties(all))])
    decreases |all| - k
  {
    if k == |all| {
      assert all[..k] == all;
      assert st.nodes[path].(properties := Properties(all)) == st.nodes[path];
      assert st.nodes[path := st.nodes[path]] == st.nodes;
    } else {
      var st1 := SetProperty(st, path, all[k].name, StatementProperty(all[k], 1));
      assert all[..k + 1][..k] == all[..k] && all[..k + 1][k] == all[k];
      assert all[k..][1..] == all[k + 1..];
      StatementsSet(st1, path, all, k + 1);
      assert st1.(nodes := st1.nodes[path := st1.nodes[path].(properties := Properties(all))])
          == st.(nodes := st.nodes[path := st.nodes[path].(properties := Properties(all))]);
    }
  }

  /** The node a visit enters, before its children are attached. */
  function EnteredNode(v: Visit): Node {
    Node(v.Path(), v.block.name, v.block.labels, Properties(v.block.statements), [], 1)
  }

  function Listed(st: PState, p: string): set<string> {
    if p in st.children then set c | c in st.children[p] else {}
  }

  /** A visit of a new path adds one node and lists it under its parent; nothing is reported. */
  lemma FreshVisit(st: PState, v: Visit)
    requires v.Path() !in st.nodes
    ensures
      var r := EnterOne(st, v);
      && r.nodes == st.nodes[v.Path() := EnteredNode(v)]
      && r.issues == st.issues && r.unsupported == st.unsupported && r.duplicates == st.duplicates
      && r.children.Keys == st.children.Keys + (if v.parent.Some? then {v.parent.value} else {})
      && forall p :: Listed(r, p) == Listed(st, p) + (if v.parent == Some(p) then {v.Path()} else {})
  {
    hide EnterStatements, Properties, BlockPath;
    var path := v.Path();
    var node := Node(path, v.block.name, v.block.labels, map[], [], 1);
    var st1 := Header0(st, v.parent, v.block, 1);
    assert st1 == Declare(st, node, v.parent, 1);
    NoProperties(v.block.statements);
    assert v.block.statements[0..] == v.block.statements;
    StatementsSet(st1, path, v.block.statements, 0);
    assert st1.nodes[path := EnteredNode(v)] == st.nodes[path := EnteredNode(v)];
    ListedAfter(st, node, v.parent, 1);
  }

  lemma NoProperties(ss: seq<Statement>)
    ensures Properties(ss[..0]) == map[]
  {
  }

  lemma ListedAfter(st: PState, node: Node, parent: Option<string>, line: nat)
    ensures
      var r := Declare(st, node, parent, line);
      && r.children.Keys == st.children.Keys + (if parent.Some? then {parent.value} else {})
      && forall p :: Listed(r, p) == Listed(st, p) + (if parent == Some(p) then {node.path} else {})
  {
    var r := Declare(st, node, parent, line);
    forall p
      ensures Listed(r, p) == Listed(st, p) + (if parent == Some(p) then {node.path} else {})
    {
      if parent == Some(p) {
        var list := if p in st.children then st.children[p] else [];
        assert r.children[p] == if node.path in list then list else list + [node.path];
      }
    }
  }

  // ----- what all visits change -----

  ghost predicate NewPaths(st: PState, vs: seq<Visit>) {
    && (forall i | 0 <= i < |vs| :: vs[i].Path() !in st.nodes)
    && (forall i, j | 0 <= i < j < |vs| :: vs[i].Path() != vs[j].Path())
  }

  ghost predicate Entered(st: PState, vs: seq<Visit>, r: PState) {
    && r.issues == st.issues && r.unsupported == st.unsupported && r.duplicates == st.duplicates
    && (forall p :: p in r.nodes <==> p in st.nodes || exists v | v in vs :: v.Path() == p)
    && (forall p | p in st.nodes :: p in r.nodes && r.nodes[p] == st.nodes[p])
    && (forall v | v in vs :: v.Path() in r.nodes && r.nodes[v.Path()] == EnteredNode(v))
    && (forall p :: p in r.children <==> p in st.children || exists v | v in vs :: v.parent == Some(p))
    && (forall p, c :: c in Listed(r, p) <==>
          c in Listed(st, p) || exists v | v in vs :: v.parent == Some(p) && v.Path() == c)
  }

  lemma {:induction false} VisitsEnter(st: PState, vs: seq<Visit>)
    requires NewPaths(st, vs)
    ensures Entered(st, vs, EnterAll(st, vs))
    decreases |vs|
  {
    hide EnterOne, EnteredNode, Visit.Path, Listed;
    if vs != [] {
      var st1 := EnterOne(st, vs[0]);
      FreshVisit(st, vs[0]);
      assert NewPaths(st1, vs[1..]) by {
        assert forall i | 0 <= i < |vs| - 1 :: vs[1..][i] == vs[i + 1];
      }
      VisitsEnter(st1, vs[1..]);
      EnteredStep(st, vs, st1, EnterAll(st1, vs[1..]));
    }
  }

  lemma EnteredStep(st: PState, vs: seq<Visit>, st1: PState, r: PState)
    requires vs != [] && vs[0].Path() !in st.nodes
    requires
      && st1.nodes == st.nodes[vs[0].Path() := EnteredNode(vs[0])]
      && st1.issues == st.issues && st1.unsupported == st.unsupported && st1.duplicates == st.duplicates
      && st1.children.Keys == st.children.Keys + (if vs[0].parent.Some? then {vs[0].parent.value} else {})
      && forall p :: Listed(st1, p) == Listed(st, p) + (if vs[0].parent == Some(p) then {vs[0].Path()} else {})
    requires Entered(st1, vs[1..], r)
    ensures Entered(st, vs, r)
  {
    hide EnteredNode, Visit.Path, Listed;
    assert vs == [vs[0]] + vs[1..];
    assert forall v :: v in vs <==> v == vs[0] || v in vs[1..];
    assert vs[0] in vs;
    forall p, c
      ensures c in Listed(r, p) <==>
        c in Listed(st, p) || exists v | v in vs :: v.parent == Some(p) && v.Path() == c
    {
      assert c in Listed(st1, p) <==> c in Listed(st, p) || (vs[0].parent == Some(p) && vs[0].Path() == c);
    }
    forall p
      ensures p in r.children <==> p in st.children || exists v | v in vs :: v.parent == Some(p)
    {
      assert p in st1.children <==> p in st.children || vs[0].parent == Some(p);
    }
  }

  // ----- the family of a visit -----

  lemma {:induction false} VisitHasParent(parent: Option<string>, b: Block, v: Visit)
    requires v in Visits(parent, b)
    ensures v == Visit(parent, b) ||
      exists w | w in Visits(parent, b) :: v.parent == Some(w.Path()) && v.block in w.block.children
    decreases b, 1
  {
    hide BlockPath, ChildVisits;
    if v != Visit(parent, b) {
      var path := BlockPath(parent, b);
      ChildVisitHasParent(path, b, b.children, v);
      if v.parent == Some(path) && v.block in b.children {
        assert Visit(parent, b) in Visits(parent, b) && Visit(parent, b).Path() == path;
      }
    }
  }

  lemma {:induction false} ChildVisitHasParent(path: string, parent: Block, bs: seq<Block>, v: Visit)
    requires forall c | c in bs :: c in parent.children
    requires v in ChildVisits(path, parent, bs)
    ensures (v.parent == Some(path) && v.block in bs) ||
      exists w | w in ChildVisits(path, parent, bs) :: v.parent == Some(w.Path()) && v.block in w.block.children
    decreases parent, 0, |bs|
  {
    hide Visits, BlockPath;
    assert bs[0] in bs;
    var i :| 0 <= i < |parent.children| && parent.children[i] == bs[0];
    var head, tail := Visits(Some(path), bs[0]), ChildVisits(path, parent, bs[1..]);
    if v in head {
      VisitHasParent(Some(path), parent.children[i], v);
    } else {
      assert v in tail;
      ChildVisitHasParent(path, parent, bs[1..], v);
    }
  }

  lemma {:induction false} VisitedChildren(parent: Option<string>, b: Block, w: Visit, c: Block)
    requires w in Visits(parent, b) && c in w.block.children
    ensures Visit(Some(w.Path()), c) in Visits(parent, b)
    decreases b, 1
  {
    hide BlockPath;
    var path := BlockPath(parent, b);
    if w == Visit(parent, b) {
      ChildVisited(path, b, b.children, c);
    } else {
      var d := ChildVisitedIn(path, b, b.children, w);
      VisitedChildren(Some(path), d, w, c);
      ChildVisitsInclude(path, b, b.children, d, Visit(Some(w.Path()), c));
    }
  }

  lemma ChildVisited(path: string, parent: Block, bs: seq<Block>, c: Block)
    requires forall d | d in bs :: d in parent.children
    requires c in bs
    ensures Visit(Some(path), c) in ChildVisits(path, parent, bs)
  {
    assert Visits(Some(path), c)[0] == Visit(Some(path), c);
    ChildVisitsInclude(path, parent, bs, c, Visit(Some(path), c));
  }

  lemma {:induction false} ChildVisitsInclude(path: string, parent: Block, bs: seq<Block>, c: Block, v: Visit)
    requires forall d | d in bs :: d in parent.children
    requires c in bs && v in Visits(Some(path), c)
    ensures v in ChildVisits(path, parent, bs)
    decreases |bs|
  {
    hide Visits;
    if c != bs[0] {
      ChildVisitsInclude(path, parent, bs[1..], c, v);
    }
  }

  lemma {:induction false} ChildVisitedIn(path: string, parent: Block, bs: seq<Block>, v: Visit) returns (c: Block)
    requires forall d | d in bs :: d in parent.children
    requires v in ChildVisits(path, parent, bs)
    ensures c in bs && c in parent.children && c < parent && v in Visits(Some(path), c)
    decreases |bs|
  {
    hide Visits;
    if v in Visits(Some(path), bs[0]) {
      assert bs[0] in bs;
      var i :| 0 <= i < |parent.children| && parent.children[i] == bs[0];
      c := parent.children[i];
    } else {
      c := ChildVisitedIn(path, parent, bs[1..], v);
    }
  }

  // ----- distinct paths -----

  /** No block has two children of the same name. */
  predicate DistinctSiblings(b: Block) {
    && (forall i, j | 0 <= i < j < |b.children| :: b.children[i].name != b.children[j].name)
    && (forall c | c in b.children :: DistinctSiblings(c))
  }

  ghost predicate DistinctPaths(vs: seq<Visit>) {
    forall i, j | 0 <= i < j < |vs| :: vs[i].Path() != vs[j].Path()
  }

  lemma DistinctConcat(a: seq<Visit>, b: seq<Visit>)
    ensures DistinctPaths(a + b) <==>
      DistinctPaths(a) && DistinctPaths(b) && forall v, w | v in a && w in b :: v.Path() != w.Path()
  {
    hide Visit.Path;
    var s := a + b;
    if DistinctPaths(s) {
      forall i, j | 0 <= i < j < |b| ensures b[i].Path() != b[j].Path() {
        assert s[|a| + i] == b[i] && s[|a| + j] == b[j];
      }
      forall i, j | 0 <= i < j < |a| ensures a[i].Path() != a[j].Path() {
        assert s[i] == a[i] && s[j] == a[j];
      }
      forall v, w | v in a && w in b ensures v.Path() != w.Path() {
        var i :| 0 <= i < |a| && a[i] == v;
        var j :| 0 <= j < |b| && b[j] == w;
        assert s[i] == v && s[|a| + j] == w;
      }
    }
  }

  /** The text every path below `p` starts with, up to its next slash. */
  function Front(p: string): string {
    if p == "/" then "/" else p + "/"
  }

  predicate Under(x: string, p: string) {
    x == p || Front(p) <= x
  }

  lemma JoinIsFront(p: string, name: string)
    requires Canonical(p) && IsWord(name)
    ensures JoinPath(p, name) == Front(p) + name && Canonical(JoinPath(p, name))
    ensures JoinPath(p, name) != "/" && '/' !in name
  {
    StrippedIsPrefix(p);
    assert '/' !in name by {
      hide Front;
      assert EndsWord('/');
    }
    assert name[|name| - 1] in name;
  }

  /** Two siblings with a path in common below them have the same name. */
  lemma SiblingsApart(p: string, a: string, b: string, x: string)
    requires Canonical(p) && IsWord(a) && IsWord(b)
    requires Under(x, JoinPath(p, a)) && Under(x, JoinPath(p, b))
    ensures a == b
  {
    hide IsWord, JoinPath;
    JoinIsFront(p, a);
    JoinIsFront(p, b);
    var tail := x[|Front(p)|..];
    assert x == Front(p) + tail;
    NameOfTail(a, tail, x, Front(p));
    NameOfTail(b, tail, x, Front(p));
    SamePrefixName(a, b, tail);
  }

  lemma NameOfTail(a: string, tail: string, x: string, front: string)
    requires x == front + tail
    requires x == front + a || front + a + "/" <= x
    ensures a <= tail && (|tail| == |a| || tail[|a|] == '/')
  {
    assert tail == x[|front|..];
    if x != front + a {
      assert x[|front| + |a|] == (front + a + "/")[|front| + |a|];
      forall i | 0 <= i < |a| ensures tail[i] == a[i] {
        assert x[|front| + i] == (front + a + "/")[|front| + i];
      }
    } else {
      assert a == x[|front|..];
    }
  }

  lemma SamePrefixName(a: string, b: string, tail: string)
    requires a <= tail && (|tail| == |a| || tail[|a|] == '/') && '/' !in a
    requires b <= tail && (|tail| == |b| || tail[|b|] == '/') && '/' !in b
    ensures a == b
  {
    assert forall i | 0 <= i < |a| :: tail[i] == a[i] && a[i] != '/';
    assert forall i | 0 <= i < |b| :: tail[i] == b[i] && b[i] != '/';
    assert |a| == |b|;
    assert a == tail[..|a|] && b == tail[..|b|];
  }

  lemma {:induction false} VisitsUnder(parent: Option<string>, b: Block, v: Visit)
    requires GoodBody(b) && Canonical(BlockPath(parent, b)) && v in Visits(parent, b)
    ensures Under(v.Path(), BlockPath(parent, b))
    ensures v == Visit(parent, b) || Front(BlockPath(parent, b)) <= v.Path()
    decreases b
  {
    hide JoinPath, IsWord;
    var path := BlockPath(parent, b);
    if v != Visit(parent, b) {
      var c := ChildVisitedIn(path, b, b.children, v);
      JoinIsFront(path, c.name);
      assert BlockPath(Some(path), c) == JoinPath(path, c.name);
      VisitsUnder(Some(path), c, v);
      assert Front(path) <= Front(JoinPath(path, c.name));
    }
  }

  lemma {:induction false} PathsDistinctExactly(parent: Option<string>, b: Block)
    requires GoodBody(b) && Canonical(BlockPath(parent, b))
    ensures DistinctPaths(Visits(parent, b)) <==> DistinctSiblings(b)
    decreases b, 1
  {
    hide BlockPath, DistinctPaths, Canonical;
    var path := BlockPath(parent, b);
    var v, rest := Visit(parent, b), ChildVisits(path, b, b.children);
    DistinctConcat([v], rest);
    assert DistinctPaths([v]) by {
      OneIsDistinct(v);
    }
    forall w | w in rest ensures w.Path() != path {
      ChildIsLonger(path, b, w);
    }
    ChildPathsDistinctExactly(path, b, b.children);
  }

  lemma OneIsDistinct(v: Visit)
    ensures DistinctPaths([v])
  {
  }

  lemma ChildIsLonger(path: string, b: Block, w: Visit)
    requires GoodBody(b) && Canonical(path) && w in ChildVisits(path, b, b.children)
    ensures w.Path() != path
  {
    hide JoinPath, IsWord;
    var c := ChildVisitedIn(path, b, b.children, w);
    JoinIsFront(path, c.name);
    assert BlockPath(Some(path), c) == JoinPath(path, c.name);
    VisitsUnder(Some(path), c, w);
    assert |JoinPath(path, c.name)| > |path|;
  }

  ghost predicate DistinctAmong(bs: seq<Block>) {
    && (forall i, j | 0 <= i < j < |bs| :: bs[i].name != bs[j].name)
    && (forall c | c in bs :: DistinctSiblings(c))
  }

  lemma DistinctAmongStep(bs: seq<Block>)
    requires bs != []
    ensures DistinctAmong(bs) <==>
      DistinctSiblings(bs[0]) && DistinctAmong(bs[1..]) && forall c | c in bs[1..] :: c.name != bs[0].name
  {
    hide DistinctSiblings;
    if DistinctAmong(bs) {
      forall c | c in bs[1..] ensures c.name != bs[0].name {
        var j :| 0 <= j < |bs| - 1 && bs[1..][j] == c;
        assert bs[j + 1] == c;
      }
      forall i, j | 0 <= i < j < |bs| - 1 ensures bs[1..][i].name != bs[1..][j].name {
        assert bs[1..][i] == bs[i + 1] && bs[1..][j] == bs[j + 1];
      }
    }
    if DistinctSiblings(bs[0]) && DistinctAmong(bs[1..]) && (forall c | c in bs[1..] :: c.name != bs[0].name) {
      forall i, j | 0 <= i < j < |bs| ensures bs[i].name != bs[j].name {
        assert bs[j] == bs[1..][j - 1];
        if i > 0 {
          assert bs[i] == bs[1..][i - 1];
        }
      }
      assert bs == [bs[0]] + bs[1..];
    }
  }

  lemma {:induction false} ChildPathsDistinctExactly(path: string, parent: Block, bs: seq<Block>)
    requires forall c | c in bs :: c in parent.children
    requires Canonical(path) && forall c | c in bs :: GoodBody(c) && IsWord(c.name)
    ensures DistinctPaths(ChildVisits(path, parent, bs)) <==> DistinctAmong(bs)
    decreases parent, 0, |bs|
  {
    hide Visits, DistinctPaths, DistinctSiblings, IsWord, GoodBody, DistinctAmong;
    if bs == [] {
      NoneAreDistinct();
    } else {
      assert bs[0] in bs;
      var i :| 0 <= i < |parent.children| && parent.children[i] == bs[0];
      var c := parent.children[i];
      var head, tail := Visits(Some(path), c), ChildVisits(path, parent, bs[1..]);
      ChildIsCanonical(path, c);
      PathsDistinctExactly(Some(path), c);
      ChildPathsDistinctExactly(path, parent, bs[1..]);
      DistinctConcat(head, tail);
      DistinctAmongStep(bs);
      ApartExactly(path, parent, bs);
    }
  }

  lemma NoneAreDistinct()
    ensures DistinctPaths([]) && DistinctAmong([])
  {
  }

  lemma ChildIsCanonical(path: string, c: Block)
    requires Canonical(path) && IsWord(c.name)
    ensures Canonical(BlockPath(Some(path), c)) && BlockPath(Some(path), c) == JoinPath(path, c.name)
  {
    hide JoinPath, IsWord;
    JoinIsFront(path, c.name);
  }

  lemma ApartExactly(path: string, parent: Block, bs: seq<Block>)
    requires bs != [] && forall c | c in bs :: c in parent.children
    requires Canonical(path) && forall c | c in bs :: GoodBody(c) && IsWord(c.name)
    ensures (forall v, w | v in Visits(Some(path), bs[0]) && w in ChildVisits(path, parent, bs[1..]) :: v.Path() != w.Path())
      <==> forall c | c in bs[1..] :: c.name != bs[0].name
  {
    hide Visits, ChildVisits, IsWord, GoodBody, JoinPath, Canonical, BlockPath, Under;
    var head, tail := Visits(Some(path), bs[0]), ChildVisits(path, parent, bs[1..]);
    assert bs[0] in bs;
    if forall c | c in bs[1..] :: c.name != bs[0].name {
      forall v, w | v in head && w in tail ensures v.Path() != w.Path() {
        var c := ChildVisitedIn(path, parent, bs[1..], w);
        ChildIsCanonical(path, bs[0]);
        ChildIsCanonical(path, c);
        VisitsUnder(Some(path), bs[0], v);
        VisitsUnder(Some(path), c, w);
        if v.Path() == w.Path() {
          SiblingsApart(path, bs[0].name, c.name, v.Path());
        }
      }
    }
    forall c | c in bs[1..] && (forall v, w | v in head && w in tail :: v.Path() != w.Path())
      ensures c.name != bs[0].name
    {
      ChildVisited(path, parent, bs[1..], c);
      FirstVisit(path, bs[0]);
      ChildIsCanonical(path, bs[0]);
      ChildIsCanonical(path, c);
      assert Visit(Some(path), bs[0]).Path() != Visit(Some(path), c).Path();
    }
  }

  lemma FirstVisit(path: string, b: Block)
    ensures Visit(Some(path), b) in Visits(Some(path), b)
  {
    assert Visits(Some(path), b)[0] == Visit(Some(path), b);
  }

  // ----- the whole source -----

  /** The header log of a run of visits. */
  lemma {:induction false} VisitsLog(st: PState, vs: seq<Visit>)
    ensures EnterAll(st, vs).log ==
            st.log + seq(|vs|, i requires 0 <= i < |vs| => Declaration(vs[i].parent, vs[i].block.name))
    decreases |vs|
  {
    hide EnterOne;
    if vs == [] {
      assert st.log + [] == st.log;
    } else {
      VisitsLog(EnterOne(st, vs[0]), vs[1..]);
      OneLog(st, vs[0]);
      assert forall i | 0 <= i < |vs| - 1 :: vs[1..][i] == vs[i + 1];
    }
  }

  lemma OneLog(st: PState, v: Visit)
    ensures EnterOne(st, v).log == st.log + [Declaration(v.parent, v.block.name)]
  {
    hide EnterStatements;
    StatementsKeepLog(Header0(st, v.parent, v.block, 1), v.Path(), v.block.statements);
  }

  lemma {:induction false} StatementsKeepLog(st: PState, path: string, ss: seq<Statement>)
    requires path in st.nodes
    ensures EnterStatements(st, path, ss, 1).log == st.log
    decreases |ss|
  {
    if ss != [] {
      StatementsKeepLog(SetProperty(st, path, ss[0].name, StatementProperty(ss[0], 1)), path, ss[1..]);
    }
  }

  ghost function AllVisits(root: Block): seq<Visit> {
    Visits(None, root)
  }

  /** The node the parsed tree must hold for a block. */
  ghost function ExpectedNode(v: Visit): Node {
    Node(v.Path(), v.block.name, v.block.labels, Properties(v.block.statements),
         SortedSet(set c | c in v.block.children :: JoinPath(v.Path(), c.name)), 1)
  }

  lemma FinalVisits(root: Block)
    requires GoodRoot(root)
    ensures FinalState(FileTokens(root, 1)) == EnterAll(START, AllVisits(root)).(pos := |FileTokens(root, 1)|)
  {
    hide ParseTop, Enter, EnterAll, Visits;
    ParsesFile(root);
    EnterIsVisits(START, None, root);
  }

  lemma AllAreNew(vs: seq<Visit>)
    requires DistinctPaths(vs)
    ensures NewPaths(START, vs)
  {
    hide Visit.Path;
  }

  lemma EnteredElsewhere(st: PState, vs: seq<Visit>, r: PState, pos: nat)
    requires Entered(st, vs, r)
    ensures Entered(st, vs, r.(pos := pos))
  {
    hide Visit.Path, EnteredNode;
    assert forall p :: Listed(r.(pos := pos), p) == Listed(r, p);
    hide Listed;
  }

  lemma EnteredFile(root: Block)
    requires GoodRoot(root) && DistinctSiblings(root)
    ensures Entered(START, AllVisits(root), FinalState(FileTokens(root, 1)))
  {
    hide ParseTop, Visits, EnterAll, FinalState, DistinctSiblings, GoodBody, Entered, NewPaths, DistinctPaths, AllVisits;
    FinalVisits(root);
    DistinctVisits(root);
    AllAreNew(AllVisits(root));
    VisitsEnter(START, AllVisits(root));
    EnteredElsewhere(START, AllVisits(root), EnterAll(START, AllVisits(root)), |FileTokens(root, 1)|);
  }

  lemma ChildPathsOf(root: Block, v: Visit, st: PState, c: string)
    requires v in AllVisits(root) && DistinctPaths(AllVisits(root))
    ensures
      (exists w | w in AllVisits(root) :: w.parent == Some(v.Path()) && w.Path() == c)
      <==> c in (set b | b in v.block.children :: JoinPath(v.Path(), b.name))
  {
    hide Visits, JoinPath;
    if w :| w in AllVisits(root) && w.parent == Some(v.Path()) && w.Path() == c {
      VisitHasParent(None, root, w);
      var u :| u in AllVisits(root) && w.parent == Some(u.Path()) && w.block in u.block.children;
      SameVisit(AllVisits(root), u, v);
      assert JoinPath(v.Path(), w.block.name) == c;
    }
    if b :| b in v.block.children && JoinPath(v.Path(), b.name) == c {
      VisitedChildren(None, root, v, b);
      assert Visit(Some(v.Path()), b).Path() == c;
    }
  }

  lemma SameVisit(vs: seq<Visit>, u: Visit, v: Visit)
    requires DistinctPaths(vs) && u in vs && v in vs && u.Path() == v.Path()
    ensures u == v
  {
    hide Visit.Path;
    var i :| 0 <= i < |vs| && vs[i] == u;
    var j :| 0 <= j < |vs| && vs[j] == v;
    assert i == j;
  }

  lemma FinishedNode(root: Block, v: Visit, st: PState)
    requires v in AllVisits(root) && DistinctPaths(AllVisits(root)) && Entered(START, AllVisits(root), st)
    ensures v.Path() in st.nodes && WithChildren(st.nodes, st.children)[v.Path()] == ExpectedNode(v)
  {
    hide Visits, JoinPath, Visit.Path, Properties, SortedSet, AllVisits, DistinctPaths;
    var p := v.Path();
    var want := set b | b in v.block.children :: JoinPath(p, b.name);
    forall c ensures c in Listed(st, p) <==> c in want {
      ChildPathsOf(root, v, st, c);
      assert c !in Listed(START, p);
    }
    assert Listed(st, p) == want;
    if p !in st.children {
      EmptySorted();
    }
  }

  lemma EmptySorted()
    ensures SortedSet({}) == []
  {
  }

  lemma ParsedIsFinished(ts: seq<Token>, source: string)
    ensures ParseTokens(ts, source) == Finish(FinalState(ts), source)
  {
    hide ParseTop, Finish;
  }

  /** The least path of a block whose last `phandle` or `linux,phandle` statement is this number. */
  ghost predicate FirstToOwn(root: Block, n: int, p: string) {
    && (exists v | v in AllVisits(root) :: v.Path() == p && Owns(Properties(v.block.statements), n))
    && forall w | w in AllVisits(root) && Owns(Properties(w.block.statements), n) ::
         w.Path() == p || StrLess(p, w.Path())
  }

  /** The least path of a block that carries the label. */
  ghost predicate FirstToCarry(root: Block, x: string, p: string) {
    && (exists v | v in AllVisits(root) :: v.Path() == p && x in v.block.labels)
    && forall w | w in AllVisits(root) && x in w.block.labels :: w.Path() == p || StrLess(p, w.Path())
  }

  lemma TablesReadBack(root: Block, t: Tree)
    requires TablesMatch(t)
    requires forall p :: p in t.nodes <==> exists v | v in AllVisits(root) :: v.Path() == p
    requires forall v | v in AllVisits(root) :: t.nodes[v.Path()] == ExpectedNode(v)
    ensures forall n, p :: Lookup(t.phandles, n) == Some(p) <==> FirstToOwn(root, n, p)
    ensures forall x, p :: x in t.labels && t.labels[x] == p <==> FirstToCarry(root, x, p)
  {
    hide Visits, AllVisits, Visit.Path, Owns, StrLess, Lookup, Properties, SortedSet;
    forall n, p ensures FirstOwner(t.nodes, n, p) <==> FirstToOwn(root, n, p) {
      forall v | v in AllVisits(root)
        ensures v.Path() in t.nodes && (Owns(t.nodes[v.Path()].properties, n) <==> Owns(Properties(v.block.statements), n))
      {
      }
    }
    forall x, p ensures FirstLabelled(t.nodes, x, p) <==> FirstToCarry(root, x, p) {
      forall v | v in AllVisits(root)
        ensures v.Path() in t.nodes && (x in t.nodes[v.Path()].labels <==> x in v.block.labels)
      {
      }
    }
  }

  /**
   A printed source with distinct siblings reads back block by block: the tree has exactly one node
   per block, with its labels, its properties and the sorted paths of its children, and every phandle
   number and label leads to the first block that has it.
   */
  lemma SourceReadsBack(root: Block, source: string)
    requires GoodRoot(root) && DistinctSiblings(root)
    ensures
      var r := ParseText(FileText(root), source);
      && r.Ok?
      && (forall p :: p in r.value.nodes <==> exists v | v in AllVisits(root) :: v.Path() == p)
      && (forall v | v in AllVisits(root) :: r.value.nodes[v.Path()] == ExpectedNode(v))
      && r.value.duplicatePaths == [] && r.value.unsupported == []
      && r.value.source == source
      && (forall n, p :: Lookup(r.value.phandles, n) == Some(p) <==> FirstToOwn(root, n, p))
      && (forall x, p :: x in r.value.labels && r.value.labels[x] == p <==> FirstToCarry(root, x, p))
  {
    hide Lex, ParseTop, Visits, JoinPath, Visit.Path, ExpectedNode, BuildLabels, BuildPhandles, FileText, FileTokens,
      GoodBody, DistinctSiblings, AllVisits, DistinctPaths, WithChildren, FinalState, TablesMatch, FirstToOwn, FirstToCarry,
      Lookup;
    var ts := FileTokens(root, 1);
    var st := FinalState(ts);
    ScansFile(root);
    EnteredFile(root);
    DistinctVisits(root);
    ParsedIsFinished(ts, source);
    forall v | v in AllVisits(root)
      ensures v.Path() in st.nodes && WithChildren(st.nodes, st.children)[v.Path()] == ExpectedNode(v)
    {
      FinishedNode(root, v, st);
    }
    forall p | p in st.children ensures p in st.nodes {
      assert p !in START.children;
      var v :| v in AllVisits(root) && v.parent == Some(p);
      ParentIsVisited(root, v, p);
    }
    ParsedTables(ts, source);
    TablesReadBack(root, ParseText(FileText(root), source).value);
  }

  lemma ParentIsVisited(root: Block, v: Visit, p: string)
    requires v in AllVisits(root) && v.parent == Some(p)
    ensures exists w | w in AllVisits(root) :: w.Path() == p
  {
    hide Visits;
    VisitHasParent(None, root, v);
  }

  lemma DistinctVisits(root: Block)
    requires GoodRoot(root)
    ensures DistinctPaths(AllVisits(root)) <==> DistinctSiblings(root)
  {
    hide Visits, DistinctPaths, DistinctSiblings, GoodBody;
    PathsDistinctExactly(None, root);
  }

  /** A printed source parses without a repeated path exactly when its siblings are distinct. */
  lemma RepeatedSiblingsAreReported(root: Block, source: string)
    requires GoodRoot(root)
    ensures
      var r := ParseText(FileText(root), source);
      r.Ok? && (r.value.duplicatePaths == [] <==> DistinctSiblings(root))
  {
    hide Lex, ParseTop, Visits, JoinPath, Visit.Path, BuildLabels, BuildPhandles, FileText, FileTokens, Finish,
      GoodBody, DistinctSiblings, AllVisits, DistinctPaths, FinalState, Paths, EnterAll;
    var ts := FileTokens(root, 1);
    ScansFile(root);
    FinalVisits(root);
    VisitsLog(START, AllVisits(root));
    DistinctVisits(root);
    RootIsVisited(root);
    FailsExactlyWithoutRoot(ts, source);
    RootIsDeclared(root, ts);
    RepeatedPathsAreReported(ts, source);
    SamePaths(AllVisits(root), FinalState(ts).log);
  }

  lemma RootIsVisited(root: Block)
    ensures AllVisits(root) != [] && AllVisits(root)[0] == Visit(None, root)
  {
  }

  lemma RootIsDeclared(root: Block, ts: seq<Token>)
    requires FinalState(ts).log != [] && FinalState(ts).log[0].parent == None
    ensures "/" in FinalState(ts).nodes
  {
    hide ParseTop;
    ParsedShape(ts);
    assert FinalState(ts).log[0].Path() == "/";
  }

  lemma SamePaths(vs: seq<Visit>, log: seq<Declaration>)
    requires |log| == |vs|
    requires forall i | 0 <= i < |vs| :: log[i] == Declaration(vs[i].parent, vs[i].block.name)
    ensures DistinctPaths(vs) <==> Distinct(Paths(log))
  {
    hide Declaration.Path;
    forall i | 0 <= i < |vs| ensures Paths(log)[i] == vs[i].Path() {
    }
    if Distinct(Paths(log)) {
      forall i, j | 0 <= i < j < |vs| ensures vs[i].Path() != vs[j].Path() {
        assert Paths(log)[i] != Paths(log)[j];
      }
    }
  }

  // ----- a source without a root -----

  /** `a { };` scans and declares a node, and the parse then fails for want of its parent. */
  lemma MissingRootFails(source: string)
    ensures ParseText("a { }; ", source) == Err(MissingParent)
  {
    hide Lex, ParseTop, Finish;
    var ts := W("a", 1) + P("{", 1) + (P("}", 1) + P(";", 1));
    assert IsWord("a");
    ScansName([], "a", 1);
    ScansClosing(1);
    BareFull("a", 1);
    assert FullName([], "a") + " { " == "a { ";
    ScansConcat("a { ", W("a", 1) + P("{", 1), "}; ", P("}", 1) + P(";", 1), 1);
    assert "a { " + "}; " == "a { }; " && "a { }; " + [] == "a { }; ";
    LexNothing(ts, 1);
    OrphanState(ts);
    FailsExactlyWithoutRoot(ts, source);
    ParsedIsFinished(ts, source);
    FinishFails(FinalState(ts), source);
  }

  lemma FinishFails(st: PState, source: string)
    ensures Finish(st, source).Err? ==> Finish(st, source) == Err(MissingParent)
  {
    hide BuildLabels, BuildPhandles, WithChildren;
  }

  lemma OrphanState(ts: seq<Token>)
    requires ts == W("a", 1) + P("{", 1) + (P("}", 1) + P(";", 1))
    ensures FinalState(ts).nodes.Keys == {"/a"} && FinalState(ts).log != []
  {
    assert |ts| == 4 && ts[0].value == "a" && ts[1].value == "{" && ts[2].value == "}" && ts[3].value == ";";
    var h := Header(1, ["a"], []);
    OneWord(ts, 0, [], []);
    assert [] + ["a"] == ["a"];
    HeaderStops(ts, h);
    hide ReadHeader;
    var st := Declare(START.(pos := 2), Node("/a", "a", [], map[], [], 1), Some("/"), 1);
    assert "/" + "a" == "/a" && JoinPath("/", "a") == "/a";
    BlockCloses(ts, st, "/a");
    hide ParseBlock;
    assert ParseNode(ts, START, "/") == st.(pos := 4);
    assert !IsDirective(ts, 0) && !Is(ts, 0, ";");
    assert ParseTop(ts, st.(pos := 4)) == st.(pos := 4);
    assert ParseTop(ts, START) == ParseTop(ts, st.(pos := 4));
  }
}
