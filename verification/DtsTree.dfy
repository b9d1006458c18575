/** Parsed trees: nodes by path, and the phandle and label tables built from them. */
module DtsTree {
  import opened Wrappers
  import opened Ordering
  import opened DtsValues

  datatype Node = Node(
    path: string,
    name: string,
    labels: seq<string>,
    properties: map<string, Property>,
    children: seq<string>,
    line: nat)

  type Nodes = map<string, Node>

  /** The parser's diagnostics; the wording of the messages is not modelled. */
  datatype Issue =
    | ExtraTopLevel(line: nat)
    | DuplicateLabel(text: string, first: string, path: string)
    | NonScalarPhandle(property: string, path: string)
    | DuplicatePhandle(n: int, first: string, path: string)
    | DuplicatePath(path: string, line: nat)
    | ExpectedNode(line: nat)
    | UnterminatedNode(line: nat)
    | UnterminatedBlock(path: string)
    | UnnamedNode(line: nat)
    | UnnamedProperty(line: nat)
    | UnterminatedMember(path: string, line: nat)
    | Unbalanced(text: string, line: nat)
    | UnterminatedValue

  datatype Unsupported = Unsupported(directive: string, line: nat)

  /** `phandles` is the dictionary in insertion order. */
  datatype Tree = Tree(
    source: string,
    nodes: Nodes,
    phandles: seq<(int, string)>,
    labels: map<string, string>,
    issues: seq<Issue>,
    unsupported: seq<Unsupported>,
    duplicatePaths: seq<string>,
    duplicateLabels: seq<string>)

  // ----- phandles -----

  const PHANDLE_NAMES: seq<string> := ["phandle", "linux,phandle"]

  predicate IsPhandleName(name: string) {
    name == "phandle" || name == "linux,phandle"
  }

  /** Every cell of a property in order, across its cell lists. */
  function Flatten(parts: seq<Part>): seq<Atom> {
    if parts == [] then []
    else (if parts[0].Cells? then parts[0].atoms else []) + Flatten(parts[1..])
  }

  predicate AllNumbers(atoms: seq<Atom>) {
    forall a | a in atoms :: a.Number?
  }

  /** `_direct_numbers`: the cells if every one is a number, otherwise nothing. */
  function DirectNumbers(p: Property): seq<int> {
    var atoms := Flatten(p.parts);
    if AllNumbers(atoms) then
      seq(|atoms|, i requires 0 <= i < |atoms| => assert atoms[i] in atoms; atoms[i].n)
    else []
  }

  function Lookup(table: seq<(int, string)>, n: int): (r: Option<string>)
    ensures r.Some? <==> exists i | 0 <= i < |table| :: table[i].0 == n
  {
    if table == [] then None
    else if table[0].0 == n then
      assert table[0].0 == n;
      Some(table[0].1)
    else
      assert table == [table[0]] + table[1..];
      Lookup(table[1..], n)
  }

  /** One pass of the inner loop over the two phandle spellings of one node. */
  function AddPhandle(table: seq<(int, string)>, node: Node, path: string, name: string)
    : (r: (seq<(int, string)>, seq<Issue>))
  {
    if name !in node.properties || node.properties[name].isBoolean then (table, [])
    else
      var numbers := DirectNumbers(node.properties[name]);
      if |numbers| != 1 then (table, [NonScalarPhandle(name, path)])
      else
        match Lookup(table, numbers[0])
        case Some(first) =>
          (table, if first != path then [DuplicatePhandle(numbers[0], first, path)] else [])
        case None => (table + [(numbers[0], path)], [])
  }

  function AddNodePhandles(table: seq<(int, string)>, node: Node, path: string)
    : (seq<(int, string)>, seq<Issue>)
  {
    var (t1, i1) := AddPhandle(table, node, path, PHANDLE_NAMES[0]);
    var (t2, i2) := AddPhandle(t1, node, path, PHANDLE_NAMES[1]);
    (t2, i1 + i2)
  }

  function AddPhandles(table: seq<(int, string)>, nodes: Nodes, paths: seq<string>)
    : (seq<(int, string)>, seq<Issue>)
    requires forall p | p in paths :: p in nodes
    decreases |paths|
  {
    if paths == [] then (table, [])
    else
      var (t1, i1) := AddNodePhandles(table, nodes[paths[0]], paths[0]);
      var (t2, i2) := AddPhandles(t1, nodes, paths[1..]);
      (t2, i1 + i2)
  }

  /** The phandle table of the nodes, in path order: the first owner of a number keeps it. */
  function BuildPhandles(nodes: Nodes): (seq<(int, string)>, seq<Issue>) {
    AddPhandles([], nodes, SortedSet(nodes.Keys))
  }

  // ----- labels -----

  function AddNodeLabels(labels: map<string, string>, names: seq<string>, path: string)
    : (map<string, string>, seq<(string, string)>)
    decreases |names|
  {
    if names == [] then (labels, [])
    else if names[0] in labels && labels[names[0]] != path then
      var (l, d) := AddNodeLabels(labels, names[1..], path);
      (l, [(names[0], labels[names[0]])] + d)
    else
      AddNodeLabels(labels[names[0] := path], names[1..], path)
  }

  function WithPath(found: seq<(string, string)>, path: string): seq<(string, string, string)> {
    seq(|found|, i requires 0 <= i < |found| => (found[i].0, found[i].1, path))
  }

  /** The labels and, for each repeated one, the label, its first owner and the later path. */
  function AddLabels(labels: map<string, string>, nodes: Nodes, paths: seq<string>)
    : (map<string, string>, seq<(string, string, string)>)
    requires forall p | p in paths :: p in nodes
    decreases |paths|
  {
    if paths == [] then (labels, [])
    else
      var (l1, d1) := AddNodeLabels(labels, nodes[paths[0]].labels, paths[0]);
      var (l2, d2) := AddLabels(l1, nodes, paths[1..]);
      (l2, WithPath(d1, paths[0]) + d2)
  }

  function BuildLabels(nodes: Nodes): (map<string, string>, seq<(string, string, string)>) {
    AddLabels(map[], nodes, SortedSet(nodes.Keys))
  }
}
