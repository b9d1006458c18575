/**
 The recursive-descent parser as the object the source uses: a token cursor and the
 dictionaries it fills. Every method moves the state exactly as the grammar says, and
 no method reads past the last token.
 */
module DtsParser {
  import opened Wrappers
  import opened Ordering
  import opened DtsScanner
  import opened DtsValues
  import opened DtsTree
  import opened DtsGrammar

  class Parser {
    const tokens: seq<Token>
    var index: nat
    var nodes: Nodes
    var children: map<string, seq<string>>
    var issues: seq<Issue>
    var unsupported: seq<Unsupported>
    var duplicatePaths: seq<string>
    ghost var log: seq<Declaration>

    ghost function State(): PState
      reads this
    {
      PState(index, nodes, children, issues, unsupported, duplicatePaths, log)
    }

    ghost predicate Valid()
      reads this
    {
      index <= |tokens|
    }

    constructor (tokens: seq<Token>)
      ensures this.tokens == tokens && Valid() && State() == START
    {
      this.tokens := tokens;
      index, nodes, children := 0, map[], map[];
      issues, unsupported, duplicatePaths, log := [], [], [], [];
    }

    predicate AtEnd()
      reads this
    {
      index >= |tokens|
    }

    /** The current token is there and has this value. */
    predicate Sees(value: string)
      reads this
    {
      Is(tokens, index, value)
    }

    method Take() returns (token: Token)
      requires Valid() && !AtEnd()
      modifies this`index
      ensures Valid() && index == old(index) + 1 && token == tokens[old(index)]
    {
      token := tokens[index];
      index := index + 1;
    }

    method SkipUntilAny(terminators: set<string>)
      requires Valid()
      modifies this`index
      ensures Valid() && index == SkipUntil(tokens, old(index), terminators, 0)
    {
      var depth: nat := 0;
      while !AtEnd()
        invariant Valid()
        invariant SkipUntil(tokens, old(index), terminators, 0) == SkipUntil(tokens, index, terminators, depth)
        decreases |tokens| - index
      {
        var token := Take();
        if OpensText(token.value) {
          depth := depth + 1;
        } else if ClosesText(token.value) && depth > 0 {
          depth := depth - 1;
        } else if token.value in terminators && depth == 0 {
          return;
        }
      }
    }

    method SkipBalancedTokens(opening: string, closing: string)
      requires Valid()
      modifies this`index
      ensures Valid() && index == SkipBalanced(tokens, old(index), opening, closing)
    {
      if !Sees(opening) {
        return;
      }
      var depth := 0;
      while !AtEnd()
        invariant Valid()
        invariant SkipNested(tokens, old(index), opening, closing, 0) ==
                  SkipNested(tokens, index, opening, closing, depth)
        decreases |tokens| - index
      {
        var token := Take();
        if token.value == opening {
          depth := depth + 1;
        } else if token.value == closing {
          depth := depth - 1;
          if depth == 0 {
            return;
          }
        }
      }
    }

    method TakeDirective()
      requires Valid() && !AtEnd()
      modifies this
      ensures Valid() && State() == ConsumeDirective(tokens, old(State()))
    {
      var start := Take();
      var name := "";
      if !AtEnd() && tokens[index].value !in {";", "{"} {
        var token := Take();
        name := token.value;
      }
      if Sees("/") {
        var slash := Take();
        name := name + "/";
      }
      assert (name, index) == DirectiveName(tokens, old(index));
      if name in PLAIN_DIRECTIVES {
        SkipUntilAny({";"});
        return;
      }
      unsupported := unsupported + [Unsupported(name, start.line)];
      SkipUntilAny({";", "{"});
      SkipBalancedTokens("{", "}");
    }

    /** The loop over the words and labels in front of a statement's body. */
    method TakeHeader() returns (prefix: seq<string>, labels: seq<string>)
      requires Valid()
      modifies this`index
      ensures Valid() && Header(index, prefix, labels) == ReadHeader(tokens, Header(old(index), [], []))
    {
      prefix, labels := [], [];
      while !AtEnd() && tokens[index].value !in {"{", "=", ";"}
        invariant Valid()
        invariant ReadHeader(tokens, Header(old(index), [], [])) ==
                  ReadHeader(tokens, Header(index, prefix, labels))
        decreases |tokens| - index
      {
        var token := Take();
        if token.value == ":" {
          if prefix != [] {
            var text := prefix[|prefix| - 1];
            prefix := prefix[..|prefix| - 1];
            if text != "" {
              labels := labels + [text];
            }
          }
        } else {
          prefix := prefix + [token.value];
        }
      }
    }

    method DeclareNode(node: Node, parent: Option<string>, line: nat)
      requires Valid()
      modifies this
      ensures Valid() && State() == Declare(old(State()), node, parent, line)
      ensures index == old(index) && node.path in nodes
    {
      var path := node.path;
      log := log + [Declaration(parent, node.name)];
      if path in nodes {
        duplicatePaths := duplicatePaths + [path];
        issues := issues + [DuplicatePath(path, line)];
      } else {
        nodes := nodes[path := node];
      }
      if parent.Some? {
        var list := if parent.value in children then children[parent.value] else [];
        if path !in list {
          list := list + [path];
        }
        children := children[parent.value := list];
      }
    }

    method TakeValueTokens() returns (values: seq<Token>)
      requires Valid()
      modifies this`index, this`issues
      ensures Valid()
      ensures
        var v := TakeValue(tokens, old(index), Depths(0, 0, 0));
        values == v.values && index == v.pos && issues == old(issues) + v.issues
    {
      hide TakeValue;
      values := [];
      var depths := Depths(0, 0, 0);
      ghost var goal := TakeValue(tokens, index, depths);
      ghost var found: seq<Issue> := [];
      PrefixedNothing(goal);
      while !AtEnd()
        invariant Valid()
        invariant issues == old(issues) + found
        invariant goal == Prefixed(values, found, TakeValue(tokens, index, depths))
        decreases |tokens| - index
      {
        TakeValueStep(tokens, index, depths, values, found);
        var token := Take();
        if token.value == ";" && depths.AllZero() {
          return;
        }
        var (next, unbalanced) := Nest(depths, token.value);
        depths := next;
        if unbalanced {
          issues := issues + [Unbalanced(token.value, token.line)];
          found := found + [Unbalanced(token.value, token.line)];
        }
        values := values + [token];
      }
      TakeValueEnd(tokens, index, depths, values, found);
      issues := issues + [UnterminatedValue];
    }

    method SetNodeProperty(path: string, name: string, p: Property)
      requires Valid() && path in nodes
      modifies this`nodes
      ensures State() == SetProperty(old(State()), path, name, p)
    {
      var node := nodes[path];
      nodes := nodes[path := node.(properties := node.properties[name := p])];
    }

    method TakeBlock(path: string)
      requires Valid() && path in nodes
      modifies this
      ensures Valid() && State() == ParseBlock(tokens, old(State()), path)
      decreases |tokens| - index, 1
    {
      hide ParseMember, ConsumeDirective;
      while !AtEnd()
        invariant Valid() && old(index) <= index && path in nodes
        invariant ParseBlock(tokens, old(State()), path) == ParseBlock(tokens, State(), path)
        decreases |tokens| - index
      {
        if Sees("}") {
          index := index + 1;
          if Sees(";") {
            index := index + 1;
          }
          return;
        }
        if Sees(";") {
          index := index + 1;
        } else if IsDirective(tokens, index) {
          TakeDirective();
        } else {
          TakeMember(path);
        }
      }
      issues := issues + [UnterminatedBlock(path)];
    }

    method TakeMember(path: string)
      requires Valid() && !AtEnd() && path in nodes
      modifies this
      ensures Valid() && State() == ParseMember(tokens, old(State()), path)
      decreases |tokens| - index, 0
    {
      hide ParseBlock, JoinPath, ReadHeader, SkipUntil, SkipBalanced, TakeValue, Declare;
      var first := tokens[index].line;
      var prefix, labels := TakeHeader();
      if AtEnd() {
        issues := issues + [UnterminatedMember(path, first)];
        return;
      }
      var token := Take();
      var name := LastOr(prefix, "");
      if token.value == "{" {
        if name == "" {
          issues := issues + [UnnamedNode(first)];
          SkipBalancedTokens("{", "}");
          return;
        }
        var child := JoinPath(path, name);
        DeclareNode(Node(child, name, labels, map[], [], first), Some(path), token.line);
        TakeBlock(child);
      } else if token.value == "=" {
        if name == "" {
          issues := issues + [UnnamedProperty(first)];
          SkipUntilAny({";"});
          return;
        }
        var values := TakeValueTokens();
        var p := ParsePropertyValue(name, values, first);
        SetNodeProperty(path, name, p);
      } else if name != "" {
        SetNodeProperty(path, name, Property(name, [], true, first));
      } else {
        issues := issues + [UnnamedProperty(first)];
      }
    }

    method TakeNode(parentPath: string)
      requires Valid() && !AtEnd()
      modifies this
      ensures Valid() && State() == ParseNode(tokens, old(State()), parentPath)
    {
      hide ParseBlock, JoinPath, ReadHeader, SkipUntil, Declare;
      var first := tokens[index].line;
      var prefix, labels := TakeHeader();
      if AtEnd() {
        issues := issues + [UnterminatedNode(first)];
        return;
      }
      if !Sees("{") {
        issues := issues + [ExpectedNode(first)];
        SkipUntilAny({";"});
        return;
      }
      var token := Take();
      var name := LastOr(prefix, "/");
      var path, parent := "/", None;
      if name != "/" {
        path, parent := JoinPath(parentPath, name), Some(parentPath);
      }
      DeclareNode(Node(path, name, labels, map[], [], first), parent, token.line);
      TakeBlock(path);
    }

    /** The loop over the top-level statements: it ends with every token consumed. */
    method TakeStatements()
      requires Valid() && State() == START
      modifies this
      ensures Valid() && AtEnd() && State() == ParseTop(tokens, START)
    {
      hide ParseNode, ConsumeDirective;
      while !AtEnd()
        invariant Valid()
        invariant ParseTop(tokens, START) == ParseTop(tokens, State())
        decreases |tokens| - index
      {
        if Sees(";") {
          index := index + 1;
        } else if IsDirective(tokens, index) {
          TakeDirective();
        } else {
          TakeNode("/");
          if !AtEnd() {
            issues := issues + [ExtraTopLevel(tokens[index].line)];
          }
        }
      }
    }

    /** The whole of `parse`: every statement, then the label, phandle and child tables. */
    method Parse(source: string) returns (r: Result<Tree, ParseError>)
      requires Valid() && State() == START
      modifies this
      ensures Valid() && AtEnd()
      ensures r == ParseTokens(tokens, source)
    {
      hide ParseTop, BuildLabels, BuildPhandles, WithChildren;
      TakeStatements();
      var labels, duplicateLabels := CollectLabels();
      var phandles, bad := CollectPhandles();
      issues := issues
        + seq(|duplicateLabels|, i requires 0 <= i < |duplicateLabels| =>
              DuplicateLabel(duplicateLabels[i].0, duplicateLabels[i].1, duplicateLabels[i].2))
        + bad;
      var found := AttachChildren();
      if !found {
        return Err(MissingParent);
      }
      return Ok(Tree(source, nodes, phandles, labels, issues, unsupported, duplicatePaths,
                     seq(|duplicateLabels|, i requires 0 <= i < |duplicateLabels| => duplicateLabels[i].0)));
    }

    method CollectLabels() returns (labels: map<string, string>, duplicates: seq<(string, string, string)>)
      ensures (labels, duplicates) == BuildLabels(nodes)
    {
      hide AddNodeLabels, AddLabels;
      labels, duplicates := map[], [];
      var paths := SortedSet(nodes.Keys);
      ghost var goal := AddLabels(map[], nodes, paths);
      assert paths[0..] == paths;
      for i := 0 to |paths|
        invariant goal.0 == AddLabels(labels, nodes, paths[i..]).0
        invariant goal.1 == duplicates + AddLabels(labels, nodes, paths[i..]).1
      {
        AddLabelsStep(labels, nodes, paths, i, duplicates);
        var found;
        labels, found := LabelsOf(labels, nodes[paths[i]].labels, paths[i]);
        duplicates := duplicates + WithPath(found, paths[i]);
      }
      assert paths[|paths|..] == [];
      NoLabels(labels, nodes);
      assert duplicates + [] == duplicates;
    }

    static method LabelsOf(before: map<string, string>, names: seq<string>, path: string)
      returns (labels: map<string, string>, found: seq<(string, string)>)
      ensures (labels, found) == AddNodeLabels(before, names, path)
    {
      labels, found := before, [];
      ghost var goal := AddNodeLabels(before, names, path);
      assert names[0..] == names;
      for i := 0 to |names|
        invariant goal.0 == AddNodeLabels(labels, names[i..], path).0
        invariant goal.1 == found + AddNodeLabels(labels, names[i..], path).1
      {
        assert names[i..][1..] == names[i + 1..] && names[i..][0] == names[i];
        if names[i] in labels && labels[names[i]] != path {
          found := found + [(names[i], labels[names[i]])];
        } else {
          labels := labels[names[i] := path];
        }
      }
      assert names[|names|..] == [];
      assert found + [] == found;
    }

    method CollectPhandles() returns (phandles: seq<(int, string)>, bad: seq<Issue>)
      ensures (phandles, bad) == BuildPhandles(nodes)
    {
      hide AddPhandle, AddPhandles;
      phandles, bad := [], [];
      var paths := SortedSet(nodes.Keys);
      ghost var goal := AddPhandles([], nodes, paths);
      assert paths[0..] == paths;
      for i := 0 to |paths|
        invariant goal.0 == AddPhandles(phandles, nodes, paths[i..]).0
        invariant goal.1 == bad + AddPhandles(phandles, nodes, paths[i..]).1
      {
        AddPhandlesStep(phandles, nodes, paths, i, bad);
        var node := nodes[paths[i]];
        var (first, found) := AddPhandle(phandles, node, paths[i], PHANDLE_NAMES[0]);
        var (second, more) := AddPhandle(first, node, paths[i], PHANDLE_NAMES[1]);
        phandles := second;
        bad := bad + (found + more);
      }
      assert paths[|paths|..] == [];
      NoPhandles(phandles, nodes);
      assert bad + [] == bad;
    }

    /** Sorts each child list into its parent; fails when a parent has no node. */
    method AttachChildren() returns (found: bool)
      modifies this`nodes
      ensures found <==> children.Keys <= old(nodes).Keys
      ensures found ==> nodes == WithChildren(old(nodes), children)
    {
      var rest := children.Keys;
      while rest != {}
        invariant rest <= children.Keys && nodes.Keys == old(nodes).Keys
        invariant children.Keys - rest <= nodes.Keys
        invariant forall p | p in nodes ::
          nodes[p] == if p in children && p !in rest then WithChildren(old(nodes), children)[p] else old(nodes)[p]
        decreases rest
      {
        var parent :| parent in rest;
        if parent !in nodes {
          return false;
        }
        nodes := nodes[parent := nodes[parent].(children := SortedSet(set c | c in children[parent]))];
        rest := rest - {parent};
      }
      return true;
    }
  }

  /** Parsing text: the scan, then the parse of its tokens. */
  method ParseDts(text: string, source: string) returns (r: Result<Tree, ParseError>)
    ensures r == ParseText(text, source)
  {
    var tokens := Scan(text);
    if tokens.Err? {
      return Err(Scanning(tokens.error));
    }
    var parser := new Parser(tokens.value);
    r := parser.Parse(source);
  }

  lemma TakeValueEnd(ts: seq<Token>, i: nat, d: Depths, values: seq<Token>, found: seq<Issue>)
    requires i == |ts|
    ensures Prefixed(values, found, TakeValue(ts, i, d)) == ValueTokens(values, i, found + [UnterminatedValue])
  {
    assert values + [] == values;
  }

  lemma NoLabels(labels: map<string, string>, nodes: Nodes)
    ensures AddLabels(labels, nodes, []) == (labels, [])
  {
  }

  /** One turn of the label loop, with the duplicates gathered so far in front. */
  lemma AddLabelsStep(
      labels: map<string, string>, nodes: Nodes, paths: seq<string>, i: nat, dups: seq<(string, string, string)>)
    requires i < |paths| && forall p | p in paths :: p in nodes
    ensures
      var (l1, d1) := AddNodeLabels(labels, nodes[paths[i]].labels, paths[i]);
      var (before, after) := (AddLabels(labels, nodes, paths[i..]), AddLabels(l1, nodes, paths[i + 1..]));
      && before.0 == after.0
      && dups + before.1 == dups + WithPath(d1, paths[i]) + after.1
  {
    hide AddNodeLabels;
    var rest := paths[i..];
    assert rest[1..] == paths[i + 1..] && rest[0] == paths[i];
    var (l1, d1) := AddNodeLabels(labels, nodes[paths[i]].labels, paths[i]);
    var after := AddLabels(l1, nodes, rest[1..]).1;
    assert dups + (WithPath(d1, paths[i]) + after) == dups + WithPath(d1, paths[i]) + after;
  }

  lemma NoPhandles(table: seq<(int, string)>, nodes: Nodes)
    ensures AddPhandles(table, nodes, []) == (table, [])
  {
  }

  /** One turn of the phandle loop, with the issues gathered so far in front. */
  lemma AddPhandlesStep(table: seq<(int, string)>, nodes: Nodes, paths: seq<string>, i: nat, bad: seq<Issue>)
    requires i < |paths| && forall p | p in paths :: p in nodes
    ensures
      var (before, after) := (AddPhandles(table, nodes, paths[i..]),
                              AddPhandles(AddNodePhandles(table, nodes[paths[i]], paths[i]).0, nodes, paths[i + 1..]));
      && before.0 == after.0
      && bad + before.1 == bad + AddNodePhandles(table, nodes[paths[i]], paths[i]).1 + after.1
  {
    hide AddNodePhandles;
    var rest := paths[i..];
    assert rest[1..] == paths[i + 1..] && rest[0] == paths[i];
    var (t1, i1) := AddNodePhandles(table, nodes[paths[i]], paths[i]);
    var (t2, i2) := AddPhandles(t1, nodes, rest[1..]);
    assert bad + (i1 + i2) == bad + i1 + i2;
  }
}
