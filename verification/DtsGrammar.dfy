/**
 The block parser as a function of the token list and the parser's state. It follows the
 source test by test: tokens are compared by value, a name is the last word of a statement,
 and every recovery path skips exactly the tokens the source skips.
 */
module DtsGrammar {
  import opened Wrappers
  import opened DtsScanner
  import opened DtsValues
  import opened DtsTree
  import Ordering

  /** One node header met by the parse: the parent it was met under, and its name. */
  datatype Declaration = Declaration(parent: Option<string>, name: string) {
    function Path(): string {
      match parent
      case None => "/"
      case Some(p) => JoinPath(p, name)
    }
  }

  /** The parser's state, and in `log` the headers met so far (history only: nothing reads it). */
  datatype PState = PState(
    pos: nat,
    nodes: Nodes,
    children: map<string, seq<string>>,
    issues: seq<Issue>,
    unsupported: seq<Unsupported>,
    duplicates: seq<string>,
    log: seq<Declaration>)

  const START: PState := PState(0, map[], map[], [], [], [], [])

  predicate Is(ts: seq<Token>, i: nat, value: string) {
    i < |ts| && ts[i].value == value
  }

  // ----- skipping -----

  /** Python's `value in "<[{"` is a substring test, so the empty string passes it too. */
  predicate OpensText(value: string) {
    value in {"", "<", "[", "{", "<[", "[{", "<[{"}
  }

  predicate ClosesText(value: string) {
    value in {"", ">", "]", "}", ">]", "]}", ">]}"}
  }

  function SkipUntil(ts: seq<Token>, i: nat, terminators: set<string>, depth: nat): (r: nat)
    requires i <= |ts|
    ensures i <= r <= |ts|
    ensures i < |ts| ==> i < r
    decreases |ts| - i
  {
    if i == |ts| then i
    else if OpensText(ts[i].value) then SkipUntil(ts, i + 1, terminators, depth + 1)
    else if ClosesText(ts[i].value) && depth > 0 then SkipUntil(ts, i + 1, terminators, depth - 1)
    else if ts[i].value in terminators && depth == 0 then i + 1
    else SkipUntil(ts, i + 1, terminators, depth)
  }

  function SkipNested(ts: seq<Token>, i: nat, opening: string, closing: string, depth: int): (r: nat)
    requires i <= |ts|
    ensures i <= r <= |ts|
    decreases |ts| - i
  {
    if i == |ts| then i
    else if ts[i].value == opening then SkipNested(ts, i + 1, opening, closing, depth + 1)
    else if ts[i].value == closing then
      if depth == 1 then i + 1 else SkipNested(ts, i + 1, opening, closing, depth - 1)
    else SkipNested(ts, i + 1, opening, closing, depth)
  }

  /** Nothing is skipped unless the next token opens a nesting. */
  function SkipBalanced(ts: seq<Token>, i: nat, opening: string, closing: string): (r: nat)
    requires i <= |ts|
    ensures i <= r <= |ts|
  {
    if Is(ts, i, opening) then SkipNested(ts, i, opening, closing, 0) else i
  }

  // ----- directives -----

  predicate IsDirective(ts: seq<Token>, i: nat) {
    Is(ts, i, "/") && i + 1 < |ts| && ts[i + 1].value != "{"
  }

  const PLAIN_DIRECTIVES: set<string> := {"dts-v1/", "plugin/", "memreserve/"}

  /** The directive's name and the position behind it. */
  function DirectiveName(ts: seq<Token>, i: nat): (r: (string, nat))
    requires i < |ts|
    ensures i < r.1 <= |ts|
  {
    var (name, j) :=
      if i + 1 < |ts| && ts[i + 1].value !in {";", "{"} then (ts[i + 1].value, i + 2) else ("", i + 1);
    if Is(ts, j, "/") then (name + "/", j + 1) else (name, j)
  }

  function ConsumeDirective(ts: seq<Token>, st: PState): (r: PState)
    requires st.pos < |ts|
    ensures st.pos < r.pos <= |ts|
    ensures r == st.(pos := r.pos, unsupported := r.unsupported)
  {
    var (name, j) := DirectiveName(ts, st.pos);
    if name in PLAIN_DIRECTIVES then st.(pos := SkipUntil(ts, j, {";"}, 0))
    else
      var k := SkipUntil(ts, j, {";", "{"}, 0);
      st.(pos := SkipBalanced(ts, k, "{", "}"),
          unsupported := st.unsupported + [Unsupported(name, ts[st.pos].line)])
  }

  // ----- statements -----

  /** The words and labels in front of a statement's `{`, `=` or `;`. */
  datatype Header = Header(pos: nat, prefix: seq<string>, labels: seq<string>)

  function ReadHeader(ts: seq<Token>, h: Header): (r: Header)
    requires h.pos <= |ts|
    ensures h.pos <= r.pos <= |ts|
    ensures r.pos < |ts| ==> ts[r.pos].value in {"{", "=", ";"}
    decreases |ts| - h.pos
  {
    if h.pos == |ts| || ts[h.pos].value in {"{", "=", ";"} then h
    else if ts[h.pos].value == ":" then
      if h.prefix == [] then ReadHeader(ts, h.(pos := h.pos + 1))
      else
        var text := h.prefix[|h.prefix| - 1];
        ReadHeader(ts, Header(h.pos + 1, h.prefix[..|h.prefix| - 1],
                              if text == "" then h.labels else h.labels + [text]))
    else ReadHeader(ts, h.(pos := h.pos + 1, prefix := h.prefix + [ts[h.pos].value]))
  }

  function LastOr(prefix: seq<string>, default: string): string {
    if prefix == [] then default else prefix[|prefix| - 1]
  }

  function StripSlashes(s: string): string {
    if s != [] && s[|s| - 1] == '/' then StripSlashes(s[..|s| - 1]) else s
  }

  function JoinPath(parent: string, name: string): string {
    if parent == "/" then "/" + name
    else if name != [] && name[0] == '&' then parent + "/" + name
    else StripSlashes(parent) + "/" + name
  }

  /** A node header enters its node, unless the path is taken, and lists it under its parent. */
  function Declare(st: PState, node: Node, parent: Option<string>, line: nat): PState {
    var path := node.path;
    var known := path in st.nodes;
    PState(
      st.pos,
      if known then st.nodes else st.nodes[path := node],
      match parent
      case None => st.children
      case Some(p) =>
        var list := if p in st.children then st.children[p] else [];
        st.children[p := if path in list then list else list + [path]],
      if known then st.issues + [DuplicatePath(path, line)] else st.issues,
      st.unsupported,
      if known then st.duplicates + [path] else st.duplicates,
      st.log + [Declaration(parent, node.name)])
  }

  datatype Depths = Depths(angle: nat, square: nat, curly: nat) {
    predicate AllZero() {
      angle == 0 && square == 0 && curly == 0
    }
  }

  /** The depths behind a token, and whether the token closes nothing. */
  function Nest(d: Depths, value: string): (Depths, bool) {
    if value == "<" then (d.(angle := d.angle + 1), false)
    else if value == "[" then (d.(square := d.square + 1), false)
    else if value == "{" then (d.(curly := d.curly + 1), false)
    else if value == ">" then if d.angle > 0 then (d.(angle := d.angle - 1), false) else (d, true)
    else if value == "]" then if d.square > 0 then (d.(square := d.square - 1), false) else (d, true)
    else if value == "}" then if d.curly > 0 then (d.(curly := d.curly - 1), false) else (d, true)
    else (d, false)
  }

  datatype ValueTokens = ValueTokens(values: seq<Token>, pos: nat, issues: seq<Issue>)

  function TakeValue(ts: seq<Token>, i: nat, d: Depths): (r: ValueTokens)
    requires i <= |ts|
    ensures i <= r.pos <= |ts|
    decreases |ts| - i
  {
    if i == |ts| then ValueTokens([], i, [UnterminatedValue])
    else if ts[i].value == ";" && d.AllZero() then ValueTokens([], i + 1, [])
    else
      var (next, unbalanced) := Nest(d, ts[i].value);
      var rest := TakeValue(ts, i + 1, next);
      ValueTokens([ts[i]] + rest.values, rest.pos,
                  (if unbalanced then [Unbalanced(ts[i].value, ts[i].line)] else []) + rest.issues)
  }

  ghost function Prefixed(values: seq<Token>, issues: seq<Issue>, v: ValueTokens): ValueTokens {
    ValueTokens(values + v.values, v.pos, issues + v.issues)
  }

  lemma PrefixedNothing(v: ValueTokens)
    ensures Prefixed([], [], v) == v
  {
    assert [] + v.values == v.values && [] + v.issues == v.issues;
  }

  /** One turn of the value loop, with the values and issues gathered so far in front. */
  lemma TakeValueStep(ts: seq<Token>, i: nat, d: Depths, values: seq<Token>, found: seq<Issue>)
    requires i < |ts|
    ensures
      var v := Prefixed(values, found, TakeValue(ts, i, d));
      if ts[i].value == ";" && d.AllZero() then v == ValueTokens(values, i + 1, found)
      else
        var (next, unbalanced) := Nest(d, ts[i].value);
        var more := if unbalanced then found + [Unbalanced(ts[i].value, ts[i].line)] else found;
        v == Prefixed(values + [ts[i]], more, TakeValue(ts, i + 1, next))
  {
    if ts[i].value == ";" && d.AllZero() {
      assert values + [] == values && found + [] == found;
    } else {
      var (next, unbalanced) := Nest(d, ts[i].value);
      var rest := TakeValue(ts, i + 1, next);
      assert values + ([ts[i]] + rest.values) == values + [ts[i]] + rest.values;
      var one := if unbalanced then [Unbalanced(ts[i].value, ts[i].line)] else [];
      assert found + (one + rest.issues) == found + one + rest.issues;
      assert !unbalanced ==> found + one == found;
    }
  }

  function SetProperty(st: PState, path: string, name: string, p: Property): PState
    requires path in st.nodes
  {
    var node := st.nodes[path];
    st.(nodes := st.nodes[path := node.(properties := node.properties[name := p])])
  }

  function AddIssue(st: PState, issue: Issue): PState {
    st.(issues := st.issues + [issue])
  }

  /** An assignment from behind its `=`: the value's tokens, their issues and the property. */
  function Assigned(ts: seq<Token>, st: PState, path: string, name: string, line: nat): (r: PState)
    requires st.pos <= |ts| && path in st.nodes
    ensures st.pos <= r.pos <= |ts| && st.nodes.Keys <= r.nodes.Keys
  {
    var v := TakeValue(ts, st.pos, Depths(0, 0, 0));
    SetProperty(st.(pos := v.pos, issues := st.issues + v.issues),
                path, name, Property(name, ParseParts(v.values), false, line))
  }

  // ----- the mutually recursive parse -----

  predicate Extends(before: PState, after: PState) {
    before.nodes.Keys <= after.nodes.Keys
  }

  function ParseBlock(ts: seq<Token>, st: PState, path: string): (r: PState)
    requires st.pos <= |ts| && path in st.nodes
    ensures st.pos <= r.pos <= |ts| && Extends(st, r)
    decreases |ts| - st.pos, 1
  {
    if st.pos == |ts| then AddIssue(st, UnterminatedBlock(path))
    else if Is(ts, st.pos, "}") then
      st.(pos := if Is(ts, st.pos + 1, ";") then st.pos + 2 else st.pos + 1)
    else if Is(ts, st.pos, ";") then ParseBlock(ts, st.(pos := st.pos + 1), path)
    else if IsDirective(ts, st.pos) then ParseBlock(ts, ConsumeDirective(ts, st), path)
    else ParseBlock(ts, ParseMember(ts, st, path), path)
  }

  function ParseMember(ts: seq<Token>, st: PState, path: string): (r: PState)
    requires st.pos < |ts| && path in st.nodes
    ensures st.pos < r.pos <= |ts| && Extends(st, r)
    decreases |ts| - st.pos, 0
  {
    var first := ts[st.pos].line;
    var h := ReadHeader(ts, Header(st.pos, [], []));
    var name := LastOr(h.prefix, "");
    if h.pos == |ts| then AddIssue(st.(pos := h.pos), UnterminatedMember(path, first))
    else
      var st1 := st.(pos := h.pos + 1);
      if ts[h.pos].value == "{" then
        if name == "" then
          AddIssue(st1, UnnamedNode(first)).(pos := SkipBalanced(ts, st1.pos, "{", "}"))
        else
          var child := JoinPath(path, name);
          var node := Node(child, name, h.labels, map[], [], first);
          ParseBlock(ts, Declare(st1, node, Some(path), ts[h.pos].line), child)
      else if ts[h.pos].value == "=" then
        if name == "" then
          AddIssue(st1, UnnamedProperty(first)).(pos := SkipUntil(ts, st1.pos, {";"}, 0))
        else
          Assigned(ts, st1, path, name, first)
      else if name == "" then AddIssue(st1, UnnamedProperty(first))
      else SetProperty(st1, path, name, Property(name, [], true, first))
  }

  /** A top-level statement; only an unnamed or slash-named block is the root. */
  function ParseNode(ts: seq<Token>, st: PState, parent: string): (r: PState)
    requires st.pos < |ts|
    ensures st.pos < r.pos <= |ts| && Extends(st, r)
  {
    var first := ts[st.pos].line;
    var h := ReadHeader(ts, Header(st.pos, [], []));
    var name := LastOr(h.prefix, "/");
    if h.pos == |ts| then AddIssue(st.(pos := h.pos), UnterminatedNode(first))
    else if ts[h.pos].value == "{" then
      var path := if name == "/" then "/" else JoinPath(parent, name);
      var node := Node(path, name, h.labels, map[], [], first);
      ParseBlock(ts, Declare(st.(pos := h.pos + 1), node, if name == "/" then None else Some(parent),
                             ts[h.pos].line), path)
    else
      AddIssue(st, ExpectedNode(first)).(pos := SkipUntil(ts, h.pos, {";"}, 0))
  }

  function ParseTop(ts: seq<Token>, st: PState): (r: PState)
    requires st.pos <= |ts|
    ensures r.pos == |ts| && Extends(st, r)
    decreases |ts| - st.pos
  {
    if st.pos == |ts| then st
    else if Is(ts, st.pos, ";") then ParseTop(ts, st.(pos := st.pos + 1))
    else if IsDirective(ts, st.pos) then ParseTop(ts, ConsumeDirective(ts, st))
    else
      var st1 := ParseNode(ts, st, "/");
      ParseTop(ts, if st1.pos < |ts| then AddIssue(st1, ExtraTopLevel(ts[st1.pos].line)) else st1)
  }

  // ----- the finished tree -----

  /** Looking up a parent that was never declared is the one way the parse itself fails. */
  datatype ParseError = Scanning(error: ScanError) | MissingParent

  function WithChildren(nodes: Nodes, children: map<string, seq<string>>): (r: Nodes)
    ensures r.Keys == nodes.Keys
  {
    map p | p in nodes ::
      if p in children then
        nodes[p].(children := Ordering.SortedSet(set c | c in children[p]))
      else nodes[p]
  }

  function Finish(st: PState, source: string): Result<Tree, ParseError> {
    var (labels, dups) := BuildLabels(st.nodes);
    var (phandles, bad) := BuildPhandles(st.nodes);
    if st.children.Keys <= st.nodes.Keys then
      Ok(Tree(
        source,
        WithChildren(st.nodes, st.children),
        phandles,
        labels,
        st.issues
          + seq(|dups|, i requires 0 <= i < |dups| => DuplicateLabel(dups[i].0, dups[i].1, dups[i].2))
          + bad,
        st.unsupported,
        st.duplicates,
        seq(|dups|, i requires 0 <= i < |dups| => dups[i].0)))
    else Err(MissingParent)
  }

  function ParseTokens(ts: seq<Token>, source: string): Result<Tree, ParseError> {
    Finish(ParseTop(ts, START), source)
  }

  function ParseText(text: string, source: string): Result<Tree, ParseError> {
    match Lex(text, 1)
    case Err(e) => Err(Scanning(e))
    case Ok(ts) => ParseTokens(ts, source)
  }
}
