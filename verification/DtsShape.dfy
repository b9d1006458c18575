/**
 The shape of every parsed tree, for all token lists: what the dictionaries hold is
 determined by the node headers met, whatever else the input contains.
 */
module DtsShape {
  import opened Wrappers
  import opened Ordering
  import opened DtsScanner
  import opened DtsValues
  import opened DtsTree
  import opened DtsGrammar

  function Paths(log: seq<Declaration>): seq<string> {
    seq(|log|, i requires 0 <= i < |log| => log[i].Path())
  }

  ghost predicate Lists(log: seq<Declaration>, parent: string, path: string) {
    exists d | d in log :: d.parent == Some(parent) && d.Path() == path
  }

  ghost predicate HasParent(log: seq<Declaration>, parent: string) {
    exists d | d in log :: d.parent == Some(parent)
  }

  ghost predicate Declares(log: seq<Declaration>, name: string, path: string) {
    exists d | d in log :: d.name == name && d.Path() == path
  }

  predicate Rooted(path: string) {
    path != [] && path[0] == '/'
  }

  /** The node table holds exactly the declared paths, each under its own path. */
  ghost predicate NodesMatch(st: PState) {
    && (forall n | n in st.nodes :: Rooted(n) && st.nodes[n].path == n && Declares(st.log, st.nodes[n].name, n))
    && (forall d | d in st.log :: d.Path() in st.nodes)
  }

  /** The child lists hold exactly the paths declared under each parent, once each. */
  ghost predicate ChildrenMatch(st: PState) {
    && (forall p | p in st.children ::
          Distinct(st.children[p]) && forall c | c in st.children[p] :: Lists(st.log, p, c))
    && (forall d | d in st.log && d.parent.Some? ::
          d.parent.value in st.children && d.Path() in st.children[d.parent.value])
    && (forall p | p in st.children :: HasParent(st.log, p))
  }

  /** The duplicates are the surplus declarations, and each has its issue. */
  ghost predicate DuplicatesMatch(st: PState) {
    && multiset(Paths(st.log)) == multiset(st.nodes.Keys) + multiset(st.duplicates)
    && (forall x | x in st.duplicates :: exists line :: DuplicatePath(x, line) in st.issues)
  }

  ghost predicate ParentsMatch(st: PState) {
    && (forall d | d in st.log && d.parent.Some? :: d.parent.value in st.nodes || d.parent.value == "/")
    && (st.log != [] && st.log[0].parent.Some? ==> st.log[0].parent.value == "/")
  }

  ghost predicate Shape(st: PState) {
    NodesMatch(st) && ChildrenMatch(st) && DuplicatesMatch(st) && ParentsMatch(st)
  }

  lemma StartShape()
    ensures Shape(START)
  {
  }

  /** Steps that declare nothing keep the shape. */
  lemma QuietStep(before: PState, after: PState)
    requires Shape(before)
    requires before.log == after.log && before.children == after.children
    requires before.duplicates == after.duplicates
    requires before.nodes.Keys == after.nodes.Keys
    requires forall n | n in before.nodes ::
      after.nodes[n].path == before.nodes[n].path && after.nodes[n].name == before.nodes[n].name
    requires before.issues <= after.issues
    ensures Shape(after)
  {
    forall x | x in after.duplicates ensures exists line :: DuplicatePath(x, line) in after.issues {
      var line :| DuplicatePath(x, line) in before.issues;
      var i :| 0 <= i < |before.issues| && before.issues[i] == DuplicatePath(x, line);
      assert after.issues[i] == DuplicatePath(x, line);
    }
  }

  lemma PathsAppend(log: seq<Declaration>, d: Declaration)
    ensures Paths(log + [d]) == Paths(log) + [d.Path()]
  {
  }

  lemma JoinIsRooted(parent: string, name: string)
    requires Rooted(parent)
    ensures Rooted(JoinPath(parent, name))
  {
    StrippedIsPrefix(parent);
  }

  lemma {:induction false} StrippedIsPrefix(s: string)
    ensures StripSlashes(s) <= s
    ensures s != [] && s[|s| - 1] != '/' ==> StripSlashes(s) == s
  {
    if s != [] && s[|s| - 1] == '/' {
      StrippedIsPrefix(s[..|s| - 1]);
    }
  }

  lemma DeclaredIsRooted(d: Declaration, st: PState)
    requires NodesMatch(st)
    requires d.parent.Some? ==> d.parent.value in st.nodes || d.parent.value == "/"
    ensures Rooted(d.Path())
  {
    if d.parent.Some? {
      JoinIsRooted(d.parent.value, d.name);
    }
  }

  lemma DeclareNodes(st: PState, node: Node, parent: Option<string>, line: nat)
    requires NodesMatch(st)
    requires node.path == Declaration(parent, node.name).Path()
    requires parent.Some? ==> parent.value in st.nodes || parent.value == "/"
    ensures NodesMatch(Declare(st, node, parent, line))
  {
    hide Declaration.Path, Rooted, Declares;
    var d := Declaration(parent, node.name);
    var after := Declare(st, node, parent, line);
    DeclaredIsRooted(d, st);
    StillDeclared(st.log, d, node.path);
    assert after.log == st.log + [d];
    forall n | n in after.nodes
      ensures Rooted(n) && after.nodes[n].path == n && Declares(after.log, after.nodes[n].name, n)
    {
      if n in st.nodes {
        StillDeclared(st.log, d, n);
      }
    }
  }

  lemma StillDeclared(log: seq<Declaration>, d: Declaration, path: string)
    ensures forall name :: Declares(log, name, path) ==> Declares(log + [d], name, path)
    ensures d.Path() == path ==> Declares(log + [d], d.name, path)
  {
    hide Declaration.Path;
    assert d in log + [d] && forall e | e in log :: e in log + [d];
  }

  lemma DeclareParents(st: PState, node: Node, parent: Option<string>, line: nat)
    requires NodesMatch(st) && ParentsMatch(st)
    requires parent.Some? ==> parent.value in st.nodes || parent.value == "/"
    ensures ParentsMatch(Declare(st, node, parent, line))
  {
    assert Declare(st, node, parent, line).log == st.log + [Declaration(parent, node.name)];
  }

  lemma DeclareChildren(st: PState, node: Node, parent: Option<string>, line: nat)
    requires ChildrenMatch(st)
    requires node.path == Declaration(parent, node.name).Path()
    ensures ChildrenMatch(Declare(st, node, parent, line))
  {
    hide Declaration.Path;
    var d := Declaration(parent, node.name);
    var after := Declare(st, node, parent, line);
    assert after.log == st.log + [d];
    assert d in after.log;
    forall p | p in after.children
      ensures Distinct(after.children[p]) && HasParent(after.log, p)
      ensures forall c | c in after.children[p] :: Lists(after.log, p, c)
    {
      if p in st.children {
        LogGrows(st.log, d, p, st.children[p]);
      }
      if parent == Some(p) {
        assert Lists(after.log, p, node.path);
      }
    }
    forall e | e in after.log && e.parent.Some?
      ensures e.parent.value in after.children && e.Path() in after.children[e.parent.value]
    {
      assert e in st.log || e == d;
      if e in st.log && parent == e.parent {
        var list := st.children[e.parent.value];
        assert e.Path() in list;
        assert after.children[e.parent.value] == if node.path in list then list else list + [node.path];
      }
    }
  }

  lemma LogGrows(log: seq<Declaration>, d: Declaration, parent: string, list: seq<string>)
    requires HasParent(log, parent) && forall c | c in list :: Lists(log, parent, c)
    ensures HasParent(log + [d], parent) && forall c | c in list :: Lists(log + [d], parent, c)
  {
    assert forall e | e in log :: e in log + [d];
    forall c | c in list ensures Lists(log + [d], parent, c) {
      var e :| e in log && e.parent == Some(parent) && e.Path() == c;
      assert e in log + [d];
    }
  }

  lemma DeclareDuplicates(st: PState, node: Node, parent: Option<string>, line: nat)
    requires DuplicatesMatch(st)
    requires node.path == Declaration(parent, node.name).Path()
    ensures DuplicatesMatch(Declare(st, node, parent, line))
  {
    hide Declaration.Path, DuplicatesMatch, Paths;
    var d := Declaration(parent, node.name);
    var after := Declare(st, node, parent, line);
    PathsAppend(st.log, d);
    if node.path !in st.nodes {
      assert after.nodes.Keys == st.nodes.Keys + {node.path};
      FreshMatches(st, after, node.path);
    } else {
      RepeatMatches(st, after, node.path, line);
    }
  }

  lemma FreshMatches(st: PState, after: PState, path: string)
    requires DuplicatesMatch(st) && path !in st.nodes
    requires Paths(after.log) == Paths(st.log) + [path] && after.nodes.Keys == st.nodes.Keys + {path}
    requires after.duplicates == st.duplicates && after.issues == st.issues
    ensures DuplicatesMatch(after)
  {
    hide Paths;
    MultisetOfKeys(st.nodes.Keys, path);
  }

  lemma RepeatMatches(st: PState, after: PState, path: string, line: nat)
    requires DuplicatesMatch(st)
    requires Paths(after.log) == Paths(st.log) + [path] && after.nodes == st.nodes
    requires after.duplicates == st.duplicates + [path] && after.issues == st.issues + [DuplicatePath(path, line)]
    ensures DuplicatesMatch(after)
  {
    hide Paths;
    assert after.issues[|st.issues|] == DuplicatePath(path, line);
    forall x | x in st.duplicates ensures exists line :: DuplicatePath(x, line) in after.issues {
      var l :| DuplicatePath(x, l) in st.issues;
      assert DuplicatePath(x, l) in after.issues;
    }
  }

  lemma MultisetOfKeys(keys: set<string>, x: string)
    requires x !in keys
    ensures multiset(keys + {x}) == multiset(keys) + multiset{x}
  {
  }

  lemma DeclareShape(st: PState, node: Node, parent: Option<string>, line: nat)
    requires Shape(st)
    requires node.path == Declaration(parent, node.name).Path()
    requires parent.Some? ==> parent.value in st.nodes || parent.value == "/"
    ensures Shape(Declare(st, node, parent, line))
  {
    hide Declare, NodesMatch, ChildrenMatch, DuplicatesMatch, ParentsMatch;
    DeclareNodes(st, node, parent, line);
    DeclareParents(st, node, parent, line);
    DeclareChildren(st, node, parent, line);
    DeclareDuplicates(st, node, parent, line);
  }

  lemma {:induction false} BlockShape(ts: seq<Token>, st: PState, path: string)
    requires st.pos <= |ts| && path in st.nodes && Shape(st)
    ensures Shape(ParseBlock(ts, st, path))
    decreases |ts| - st.pos, 1
  {
    hide Shape, ParseMember, ConsumeDirective;
    if st.pos == |ts| {
      QuietStep(st, AddIssue(st, UnterminatedBlock(path)));
    } else if Is(ts, st.pos, "}") {
      QuietStep(st, ParseBlock(ts, st, path));
    } else if Is(ts, st.pos, ";") {
      QuietStep(st, st.(pos := st.pos + 1));
      BlockShape(ts, st.(pos := st.pos + 1), path);
    } else if IsDirective(ts, st.pos) {
      QuietStep(st, ConsumeDirective(ts, st));
      BlockShape(ts, ConsumeDirective(ts, st), path);
    } else {
      MemberShape(ts, st, path);
      BlockShape(ts, ParseMember(ts, st, path), path);
    }
  }

  lemma {:induction false} MemberShape(ts: seq<Token>, st: PState, path: string)
    requires st.pos < |ts| && path in st.nodes && Shape(st)
    ensures Shape(ParseMember(ts, st, path))
    decreases |ts| - st.pos, 0
  {
    hide Shape, ParseBlock, Declare, JoinPath, ParseParts, TakeValue, SkipUntil, SkipBalanced, ReadHeader;
    var first := ts[st.pos].line;
    var h := ReadHeader(ts, Header(st.pos, [], []));
    var name := LastOr(h.prefix, "");
    var r := ParseMember(ts, st, path);
    if h.pos < |ts| && ts[h.pos].value == "{" && name != "" {
      var st1 := st.(pos := h.pos + 1);
      QuietStep(st, st1);
      var node := Node(JoinPath(path, name), name, h.labels, map[], [], first);
      DeclareShape(st1, node, Some(path), ts[h.pos].line);
      var st2 := Declare(st1, node, Some(path), ts[h.pos].line);
      Declared(st1, node, Some(path), ts[h.pos].line);
      BlockShape(ts, st2, node.path);
    } else {
      QuietStep(st, r);
    }
  }

  lemma Declared(st: PState, node: Node, parent: Option<string>, line: nat)
    ensures var after := Declare(st, node, parent, line); node.path in after.nodes && after.pos == st.pos
  {
  }

  lemma {:induction false} NodeShape(ts: seq<Token>, st: PState)
    requires st.pos < |ts| && Shape(st)
    ensures Shape(ParseNode(ts, st, "/"))
  {
    hide Shape, ParseBlock, Declare, JoinPath, SkipUntil, ReadHeader;
    var first := ts[st.pos].line;
    var h := ReadHeader(ts, Header(st.pos, [], []));
    var name := LastOr(h.prefix, "/");
    if h.pos < |ts| && ts[h.pos].value == "{" {
      var st1 := st.(pos := h.pos + 1);
      QuietStep(st, st1);
      var path := if name == "/" then "/" else JoinPath("/", name);
      var parent := if name == "/" then None else Some("/");
      var node := Node(path, name, h.labels, map[], [], first);
      DeclareShape(st1, node, parent, ts[h.pos].line);
      Declared(st1, node, parent, ts[h.pos].line);
      BlockShape(ts, Declare(st1, node, parent, ts[h.pos].line), path);
    } else {
      QuietStep(st, ParseNode(ts, st, "/"));
    }
  }

  /** Every token list parses, to its last token, into a state of this shape. */
  lemma {:induction false} TopShape(ts: seq<Token>, st: PState)
    requires st.pos <= |ts| && Shape(st)
    ensures Shape(ParseTop(ts, st))
    decreases |ts| - st.pos
  {
    hide Shape, ParseNode, ConsumeDirective;
    if st.pos < |ts| {
      if Is(ts, st.pos, ";") {
        QuietStep(st, st.(pos := st.pos + 1));
        TopShape(ts, st.(pos := st.pos + 1));
      } else if IsDirective(ts, st.pos) {
        QuietStep(st, ConsumeDirective(ts, st));
        TopShape(ts, ConsumeDirective(ts, st));
      } else {
        NodeShape(ts, st);
        var st1 := ParseNode(ts, st, "/");
        var st2 := if st1.pos < |ts| then AddIssue(st1, ExtraTopLevel(ts[st1.pos].line)) else st1;
        QuietStep(st1, st2);
        TopShape(ts, st2);
      }
    }
  }

  // ----- the finished tree -----

  predicate CleanName(name: string) {
    name != [] && '/' !in name
  }

  /** Every header but the root's has a non-empty name without a slash. */
  predicate CleanLog(log: seq<Declaration>) {
    forall d | d in log :: if d.parent.None? then d.name == "/" else CleanName(d.name)
  }

  function LastSlash(s: string): (k: int)
    ensures -1 <= k < |s|
    ensures k >= 0 ==> s[k] == '/'
    ensures forall i | k < i < |s| :: s[i] != '/'
  {
    if s == [] then -1
    else if s[|s| - 1] == '/' then |s| - 1
    else LastSlash(s[..|s| - 1])
  }

  /** The parent a path spells: the text in front of its last slash. */
  function ParentOf(path: string): string {
    var k := LastSlash(path);
    if k <= 0 then "/" else path[..k]
  }

  predicate Canonical(path: string) {
    path == "/" || (|path| > 1 && path[0] == '/' && path[|path| - 1] != '/')
  }

  lemma ParentOfJoin(parent: string, name: string)
    requires Canonical(parent) && CleanName(name)
    ensures ParentOf(JoinPath(parent, name)) == parent
    ensures JoinPath(parent, name) != "/" && Canonical(JoinPath(parent, name))
  {
    hide LastSlash;
    StrippedIsPrefix(parent);
    var front := if parent == "/" then "" else parent;
    var path := JoinPath(parent, name);
    assert path == front + "/" + name;
    assert path[|front|] == '/';
    forall i | |front| < i < |path| ensures path[i] != '/' {
      assert path[i] == name[i - |front| - 1];
    }
    assert LastSlash(path) == |front|;
    assert path[..|front|] == front;
  }

  lemma JoinEndsInName(parent: string, name: string)
    requires name != []
    ensures
      var path := JoinPath(parent, name);
      |path| > 1 && path[|path| - 1] == name[|name| - 1]
  {
    hide StripSlashes;
  }

  lemma DeclaredIsCanonical(st: PState, path: string)
    requires NodesMatch(st) && CleanLog(st.log)
    requires path in st.nodes || path == "/"
    ensures Canonical(path)
  {
    hide JoinPath;
    if path != "/" {
      assert Declares(st.log, st.nodes[path].name, path);
      var d :| d in st.log && d.Path() == path;
      assert d.parent.Some?;
      JoinEndsInName(d.parent.value, d.name);
      assert d.name[|d.name| - 1] in d.name;
    }
  }

  /** Under clean names a path is listed under exactly the parent it spells. */
  lemma ListedUnderParent(st: PState, parent: string, path: string)
    requires NodesMatch(st) && ParentsMatch(st) && CleanLog(st.log)
    ensures Lists(st.log, parent, path) <==> path in st.nodes && path != "/" && ParentOf(path) == parent
  {
    hide JoinPath, ParentOf;
    if Lists(st.log, parent, path) {
      var d :| d in st.log && d.parent == Some(parent) && d.Path() == path;
      DeclaredIsCanonical(st, parent);
      ParentOfJoin(parent, d.name);
    }
    if path in st.nodes && path != "/" && ParentOf(path) == parent {
      assert Declares(st.log, st.nodes[path].name, path);
      var d :| d in st.log && d.Path() == path;
      DeclaredIsCanonical(st, d.parent.value);
      ParentOfJoin(d.parent.value, d.name);
      assert d.parent == Some(parent);
    }
  }

  /**
   The shape of a parsed tree: every node but the root has its parent in the tree, and a node's
   children are the sorted, duplicate-free listing of exactly the nodes under it.
   */
  ghost predicate WellShaped(nodes: Nodes) {
    && (forall c | c in nodes && c != "/" :: ParentOf(c) in nodes)
    && (forall p | p in nodes ::
          && StrictlySorted(nodes[p].children, StrLess)
          && forall c :: c in nodes[p].children <==> c in nodes && c != "/" && ParentOf(c) == p)
  }

  ghost function FinalState(ts: seq<Token>): PState {
    ParseTop(ts, START)
  }

  lemma ParsedShape(ts: seq<Token>)
    ensures Shape(FinalState(ts)) && FinalState(ts).pos == |ts|
  {
    StartShape();
    TopShape(ts, START);
  }

  lemma NewNodesHaveNoChildren(ts: seq<Token>)
    ensures Childless(FinalState(ts))
  {
    ChildlessTop(ts, START);
  }

  /** Child lists are attached, and the tables' issues are added, when the parse is finished. */
  ghost predicate Childless(st: PState) {
    && (forall n | n in st.nodes :: st.nodes[n].children == [])
    && (forall issue | issue in st.issues :: !IsTableIssue(issue))
  }

  predicate IsTableIssue(issue: Issue) {
    issue.DuplicateLabel? || issue.NonScalarPhandle? || issue.DuplicatePhandle?
  }

  lemma {:induction false} ValueIssues(ts: seq<Token>, i: nat, d: Depths)
    requires i <= |ts|
    ensures forall issue | issue in TakeValue(ts, i, d).issues :: !IsTableIssue(issue)
    decreases |ts| - i
  {
    if i < |ts| && !(ts[i].value == ";" && d.AllZero()) {
      ValueIssues(ts, i + 1, Nest(d, ts[i].value).0);
    }
  }

  lemma {:induction false} ChildlessBlock(ts: seq<Token>, st: PState, path: string)
    requires st.pos <= |ts| && path in st.nodes && Childless(st)
    ensures Childless(ParseBlock(ts, st, path))
    decreases |ts| - st.pos, 1
  {
    hide ParseMember, ConsumeDirective;
    if st.pos < |ts| && !Is(ts, st.pos, "}") {
      if Is(ts, st.pos, ";") {
        ChildlessBlock(ts, st.(pos := st.pos + 1), path);
      } else if IsDirective(ts, st.pos) {
        ChildlessBlock(ts, ConsumeDirective(ts, st), path);
      } else {
        ChildlessMember(ts, st, path);
        ChildlessBlock(ts, ParseMember(ts, st, path), path);
      }
    }
  }

  lemma {:induction false} ChildlessMember(ts: seq<Token>, st: PState, path: string)
    requires st.pos < |ts| && path in st.nodes && Childless(st)
    ensures Childless(ParseMember(ts, st, path))
    decreases |ts| - st.pos, 0
  {
    hide ParseBlock, JoinPath, ParseParts, TakeValue, SkipUntil, SkipBalanced, ReadHeader;
    var h := ReadHeader(ts, Header(st.pos, [], []));
    var name := LastOr(h.prefix, "");
    if h.pos < |ts| && ts[h.pos].value == "{" && name != "" {
      var node := Node(JoinPath(path, name), name, h.labels, map[], [], ts[st.pos].line);
      ChildlessBlock(ts, Declare(st.(pos := h.pos + 1), node, Some(path), ts[h.pos].line), node.path);
    }
    if h.pos < |ts| {
      ValueIssues(ts, h.pos + 1, Depths(0, 0, 0));
    }
  }

  lemma ChildlessNode(ts: seq<Token>, st: PState)
    requires st.pos < |ts| && Childless(st)
    ensures Childless(ParseNode(ts, st, "/"))
  {
    hide ParseBlock, JoinPath, SkipUntil, ReadHeader;
    var h := ReadHeader(ts, Header(st.pos, [], []));
    var name := LastOr(h.prefix, "/");
    if h.pos < |ts| && ts[h.pos].value == "{" {
      var path := if name == "/" then "/" else JoinPath("/", name);
      var node := Node(path, name, h.labels, map[], [], ts[st.pos].line);
      ChildlessBlock(ts, Declare(st.(pos := h.pos + 1), node,
                                 if name == "/" then None else Some("/"), ts[h.pos].line), path);
    }
  }

  lemma {:induction false} ChildlessTop(ts: seq<Token>, st: PState)
    requires st.pos <= |ts| && Childless(st)
    ensures Childless(ParseTop(ts, st))
    decreases |ts| - st.pos
  {
    hide ParseNode, ConsumeDirective;
    if st.pos < |ts| {
      if Is(ts, st.pos, ";") {
        ChildlessTop(ts, st.(pos := st.pos + 1));
      } else if IsDirective(ts, st.pos) {
        ChildlessTop(ts, ConsumeDirective(ts, st));
      } else {
        ChildlessNode(ts, st);
        var st1 := ParseNode(ts, st, "/");
        ChildlessTop(ts, if st1.pos < |ts| then AddIssue(st1, ExtraTopLevel(ts[st1.pos].line)) else st1);
      }
    }
  }

  lemma FinishedChildren(st: PState, p: string, c: string)
    requires ChildrenMatch(st) && Childless(st) && p in st.nodes
    ensures StrictlySorted(WithChildren(st.nodes, st.children)[p].children, StrLess)
    ensures c in WithChildren(st.nodes, st.children)[p].children <==> Lists(st.log, p, c)
  {
    hide Declaration.Path;
    if Lists(st.log, p, c) {
      var d :| d in st.log && d.parent == Some(p) && d.Path() == c;
      assert c in st.children[p];
    }
  }

  /** With clean names, whatever else the tokens hold, a tree that parses is well shaped. */
  lemma ParsedTreeIsWellShaped(ts: seq<Token>, source: string)
    requires CleanLog(FinalState(ts).log)
    requires ParseTokens(ts, source).Ok?
    ensures WellShaped(ParseTokens(ts, source).value.nodes)
  {
    hide ParseTop, BuildLabels, BuildPhandles, ParentOf, WithChildren, Lists, NodesMatch, DuplicatesMatch,
      ParentsMatch, CleanLog;
    ParsedShape(ts);
    NewNodesHaveNoChildren(ts);
    var st := FinalState(ts);
    var nodes := WithChildren(st.nodes, st.children);
    assert ParseTokens(ts, source).value.nodes == nodes;
    forall c | c in nodes && c != "/"
      ensures ParentOf(c) in nodes
    {
      ListedUnderParent(st, ParentOf(c), c);
      ListedHasEntry(st, ParentOf(c), c);
    }
    forall p | p in nodes
      ensures StrictlySorted(nodes[p].children, StrLess)
      ensures forall c :: c in nodes[p].children <==> c in nodes && c != "/" && ParentOf(c) == p
    {
      FinishedChildren(st, p, p);
      forall c ensures c in nodes[p].children <==> c in nodes && c != "/" && ParentOf(c) == p {
        ListedUnderParent(st, p, c);
        FinishedChildren(st, p, c);
      }
    }
  }

  lemma ListedHasEntry(st: PState, p: string, c: string)
    requires ChildrenMatch(st) && Lists(st.log, p, c)
    ensures p in st.children
  {
  }

  /** Some listed parent has no node exactly when something but no root was declared. */
  lemma RootlessExactly(st: PState)
    requires Shape(st)
    ensures !(st.children.Keys <= st.nodes.Keys) <==> st.log != [] && "/" !in st.nodes
  {
    hide Declaration.Path, DuplicatesMatch;
    forall p | p in st.children && p !in st.nodes
      ensures p == "/" && st.log != []
    {
      assert HasParent(st.log, p);
    }
    if st.log != [] && "/" !in st.nodes {
      var d := st.log[0];
      NamelessIsRoot(d);
      assert d in st.log && d.Path() in st.nodes;
      assert "/" in st.children;
    }
  }

  lemma NamelessIsRoot(d: Declaration)
    ensures d.parent.None? ==> d.Path() == "/"
  {
  }

  lemma FinishFailsExactly(st: PState, source: string)
    ensures Finish(st, source).Err? <==> !(st.children.Keys <= st.nodes.Keys)
  {
    hide BuildLabels, BuildPhandles, WithChildren;
  }

  /** The parse fails exactly when some node but no root was declared. */
  lemma FailsExactlyWithoutRoot(ts: seq<Token>, source: string)
    ensures ParseTokens(ts, source).Err? <==> FinalState(ts).log != [] && "/" !in FinalState(ts).nodes
  {
    hide ParseTop, Finish, Shape;
    ParsedShape(ts);
    RootlessExactly(FinalState(ts));
    FinishFailsExactly(FinalState(ts), source);
  }

  lemma RepeatCounts(s: seq<string>, i: nat, j: nat)
    requires i < j < |s| && s[i] == s[j]
    ensures multiset(s)[s[i]] >= 2
  {
    var left, right := s[..j], s[j..];
    assert s == left + right;
    assert left[i] == s[i] && right[0] == s[j];
    assert s[i] in multiset(left) && s[i] in multiset(right);
  }

  /** A path is reported as a duplicate as often as it is declared beyond the first time. */
  lemma RepeatedPathsAreReported(ts: seq<Token>, source: string)
    requires ParseTokens(ts, source).Ok?
    ensures
      var tree := ParseTokens(ts, source).value;
      && multiset(Paths(FinalState(ts).log)) == multiset(tree.nodes.Keys) + multiset(tree.duplicatePaths)
      && (forall x | x in tree.duplicatePaths :: exists line :: DuplicatePath(x, line) in tree.issues)
      && (tree.duplicatePaths == [] <==> Distinct(Paths(FinalState(ts).log)))
  {
    hide ParseTop, BuildLabels, BuildPhandles, Declaration.Path, ChildrenMatch, ParentsMatch;
    ParsedShape(ts);
    var st := FinalState(ts);
    var tree := ParseTokens(ts, source).value;
    assert st.issues <= tree.issues;
    forall x | x in tree.duplicatePaths ensures exists line :: DuplicatePath(x, line) in tree.issues {
      var line :| DuplicatePath(x, line) in st.issues;
      var i :| 0 <= i < |st.issues| && st.issues[i] == DuplicatePath(x, line);
      assert tree.issues[i] == DuplicatePath(x, line);
    }
    SurplusMeansRepeat(Paths(st.log), tree.nodes.Keys, tree.duplicatePaths);
  }

  lemma {:induction false} OnceEach(s: seq<string>, x: string)
    requires Distinct(s)
    ensures multiset(s)[x] <= 1
  {
    if s != [] {
      OnceEach(s[1..], x);
      assert s == [s[0]] + s[1..];
      if x == s[0] {
        assert x !in s[1..];
      }
    }
  }

  lemma SurplusMeansRepeat(s: seq<string>, keys: set<string>, dups: seq<string>)
    requires multiset(s) == multiset(keys) + multiset(dups)
    requires forall x | x in s :: x in keys
    ensures dups == [] <==> Distinct(s)
  {
    if dups == [] {
      forall i, j | 0 <= i < j < |s| ensures s[i] != s[j] {
        assert multiset(s)[s[i]] <= 1;
        if s[i] == s[j] {
          RepeatCounts(s, i, j);
        }
      }
    } else {
      var x := dups[0];
      assert x in multiset(s);
      assert multiset(s)[x] >= 2;
      if Distinct(s) {
        OnceEach(s, x);
      }
    }
  }

  /** The same hypothesis read off the returned tree. */
  predicate CleanTree(tree: Tree) {
    && tree.duplicatePaths == []
    && (forall n | n in tree.nodes ::
          if n == "/" then tree.nodes[n].name == "/" else CleanName(tree.nodes[n].name))
  }

  lemma CleanTreeHasCleanLog(ts: seq<Token>, source: string)
    requires ParseTokens(ts, source).Ok? && CleanTree(ParseTokens(ts, source).value)
    ensures CleanLog(FinalState(ts).log)
  {
    hide ParseTop, BuildLabels, BuildPhandles, ChildrenMatch, DuplicatesMatch, ParentsMatch, Declaration.Path,
      Declares, Paths;
    ParsedShape(ts);
    RepeatedPathsAreReported(ts, source);
    var st := FinalState(ts);
    var tree := ParseTokens(ts, source).value;
    forall d | d in st.log
      ensures if d.parent.None? then d.name == "/" else CleanName(d.name)
    {
      var n := d.Path();
      assert n in tree.nodes && tree.nodes[n].name == st.nodes[n].name;
      assert Declares(st.log, st.nodes[n].name, n);
      OnlyDeclaration(st.log, d, st.nodes[n].name);
      RootOrUnder(d);
    }
  }

  lemma OnlyDeclaration(log: seq<Declaration>, d: Declaration, name: string)
    requires Distinct(Paths(log)) && d in log && Declares(log, name, d.Path())
    ensures d.name == name
  {
    hide Declaration.Path;
    var e :| e in log && e.name == name && e.Path() == d.Path();
    var i :| 0 <= i < |log| && log[i] == d;
    var j :| 0 <= j < |log| && log[j] == e;
    assert Paths(log)[i] == Paths(log)[j];
  }

  lemma RootOrUnder(d: Declaration)
    ensures d.Path() == "/" ==> d.parent == None || d.name == ""
    ensures d.Path() != "/" ==> d.parent.Some?
  {
    hide JoinPath;
    if d.parent.Some? && d.name != "" {
      JoinEndsInName(d.parent.value, d.name);
    }
  }

  /** A tree with clean, unrepeated names is well shaped. */
  lemma CleanTreeIsWellShaped(ts: seq<Token>, source: string)
    requires ParseTokens(ts, source).Ok? && CleanTree(ParseTokens(ts, source).value)
    ensures WellShaped(ParseTokens(ts, source).value.nodes)
  {
    CleanTreeHasCleanLog(ts, source);
    ParsedTreeIsWellShaped(ts, source);
  }
}
