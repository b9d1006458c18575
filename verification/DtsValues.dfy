/**
 Property values: the typed parts a property holds, the text `raw_text` prints
 for them, and the parts the value parser reads from a token list.
 */
module DtsValues {
  import opened Wrappers
  import opened DtsText
  import opened DtsScanner

  /** One scalar of a cell list. */
  datatype Atom = Number(n: int) | RefName(name: string) | MissingLabel | RawAtom(text: string)

  datatype Part =
    | Cells(atoms: seq<Atom>)
    | Strings(items: seq<string>)
    | Bytes(items: seq<string>)
    | Raw(items: seq<string>)

  datatype Property = Property(name: string, parts: seq<Part>, isBoolean: bool, line: nat)

  // ----- printing -----

  function AtomText(a: Atom): string {
    match a
    case Number(n) => PrintNumber(n)
    case RefName(l) => "&" + l
    case MissingLabel => "?missing-label"
    case RawAtom(t) => t
  }

  function Join(sep: string, items: seq<string>): string {
    if items == [] then []
    else if |items| == 1 then items[0]
    else items[0] + sep + Join(sep, items[1..])
  }

  function Quote(s: string): string {
    "\"" + Escape(s) + "\""
  }

  function Map<T, U>(f: T -> U, items: seq<T>): seq<U> {
    seq(|items|, i requires 0 <= i < |items| => f(items[i]))
  }

  function PartText(p: Part): string {
    match p
    case Cells(atoms) => "<" + Join(" ", Map(AtomText, atoms)) + ">"
    case Strings(items) => Join(", ", Map(Quote, items))
    case Bytes(items) => "[" + Join(" ", items) + "]"
    case Raw(items) => Join(" ", items)
  }

  function PartsText(parts: seq<Part>): string {
    Join(" ", Map(PartText, parts))
  }

  function RawText(p: Property): string {
    if p.isBoolean then "(boolean)" else PartsText(p.parts)
  }

  /** The loop of `raw_text` over the parts. */
  method RenderText(p: Property) returns (text: string)
    ensures text == RawText(p)
  {
    if p.isBoolean {
      return "(boolean)";
    }
    var pieces: seq<string> := [];
    for i := 0 to |p.parts|
      invariant pieces == Map(PartText, p.parts[..i])
    {
      pieces := pieces + [PartText(p.parts[i])];
    }
    assert p.parts[..|p.parts|] == p.parts;
    return Join(" ", pieces);
  }

  // ----- parsing -----

  /** `value.split("\0")`. */
  function SplitNul(s: string): (r: seq<string>)
    ensures |r| > 0
  {
    if s == [] then [[]]
    else
      var rest := SplitNul(s[1..]);
      if s[0] == '\0' then [[]] + rest else [[s[0]] + rest[0]] + rest[1..]
  }

  /** NUL characters, and they alone, separate the strings. */
  lemma {:induction false} SplitAtNul(a: string, b: string)
    requires '\0' !in a
    ensures SplitNul(a) == [a] && SplitNul(a + "\0" + b) == [a] + SplitNul(b)
  {
    if a == [] {
      assert a + "\0" + b == "\0" + b && ("\0" + b)[1..] == b;
    } else {
      SplitAtNul(a[1..], b);
      assert a == [a[0]] + a[1..] && a[0] in a;
      assert (a + "\0" + b)[1..] == a[1..] + "\0" + b;
    }
  }

  /** The raw text after a slash inside a cell list, and how many tokens it takes. */
  function SlashRun(ts: seq<Token>): (r: (string, nat))
    ensures r.1 <= |ts|
  {
    if ts == [] || ts[0].value in {" ", ">", ","} then ("", 0)
    else if ts[0].value == "/" then ("/", 1)
    else
      var (raw, k) := SlashRun(ts[1..]);
      (ts[0].value + raw, k + 1)
  }

  /** One turn of the cell loop: the atoms it adds and the tokens it takes. */
  function CellStep(ts: seq<Token>): (r: (seq<Atom>, nat))
    requires ts != [] && ts[0].value != ">"
    ensures 1 <= r.1 <= |ts|
  {
    var v := ts[0].value;
    if v == "," then ([], 1)
    else if v == "&" then
      if |ts| > 1 then ([RefName(ts[1].value)], 2) else ([MissingLabel], 1)
    else if v == "/" then
      var (raw, k) := SlashRun(ts[1..]);
      ([RawAtom("/" + raw)], 1 + k)
    else
      match ParseInt(v)
      case Some(n) => ([Number(n)], 1)
      case None => ([RawAtom(v)], 1)
  }

  /** The atoms up to the closing bracket or the end, and the tokens they take. */
  function CellRun(ts: seq<Token>): (r: (seq<Atom>, nat))
    ensures r.1 <= |ts|
    ensures r.1 < |ts| ==> ts[r.1].value == ">"
    decreases |ts|
  {
    if ts == [] || ts[0].value == ">" then ([], 0)
    else
      var (atoms, k) := CellStep(ts);
      var (more, n) := CellRun(ts[k..]);
      (atoms + more, k + n)
  }

  function ByteRun(ts: seq<Token>): (r: (seq<string>, nat))
    ensures r.1 <= |ts|
    ensures r.1 < |ts| ==> ts[r.1].value == "]"
  {
    if ts == [] || ts[0].value == "]" then ([], 0)
    else
      var (more, n) := ByteRun(ts[1..]);
      ((if ts[0].value != "," then [NormaliseByte(ts[0].value)] else []) + more, 1 + n)
  }

  /** A string takes itself and a comma right behind it. */
  function StringStep(ts: seq<Token>): (k: nat)
    requires ts != []
    ensures 1 <= k <= |ts|
  {
    if |ts| > 1 && ts[1].value == "," then 2 else 1
  }

  function StringRun(ts: seq<Token>): (r: (seq<string>, nat))
    ensures r.1 <= |ts|
    ensures ts != [] && ts[0].kind == Str ==> r.1 > 0
    decreases |ts|
  {
    if ts == [] || ts[0].kind != Str then ([], 0)
    else
      var k := StringStep(ts);
      var (more, n) := StringRun(ts[k..]);
      (SplitNul(ts[0].value) + more, k + n)
  }

  function RawRun(ts: seq<Token>): (r: (seq<string>, nat))
    ensures r.1 == |r.0| <= |ts|
    ensures ts != [] && ts[0].value !in {",", "<", "["} ==> r.1 > 0
  {
    if ts == [] || ts[0].value in {",", "<", "["} then ([], 0)
    else
      var (more, n) := RawRun(ts[1..]);
      ([ts[0].value] + more, 1 + n)
  }

  function Closed(k: nat, length: nat): nat {
    if k < length then k + 1 else k
  }

  /** One turn of the value loop: the parts it adds and the tokens it takes. */
  function PartStep(ts: seq<Token>): (r: (seq<Part>, nat))
    requires ts != []
    ensures 1 <= r.1 <= |ts|
  {
    if ts[0].value == "," then ([], 1)
    else if ts[0].value == "<" then
      var (atoms, k) := CellRun(ts[1..]);
      ([Cells(atoms)], 1 + Closed(k, |ts| - 1))
    else if ts[0].value == "[" then
      var (items, k) := ByteRun(ts[1..]);
      ([Bytes(items)], 1 + Closed(k, |ts| - 1))
    else if ts[0].kind == Str then
      var (items, k) := StringRun(ts);
      ([Strings(items)], k)
    else
      var (items, k) := RawRun(ts);
      ([Raw(items)], k)
  }

  /** The parts of a value, as the tests on token values in the source decide them. */
  function ParseParts(ts: seq<Token>): seq<Part>
    decreases |ts|
  {
    if ts == [] then []
    else
      var (parts, k) := PartStep(ts);
      parts + ParseParts(ts[k..])
  }

  // ----- the loops over a token index -----

  lemma CellRunStep(ts: seq<Token>, start: nat, index: nat, atoms: seq<Atom>)
    requires start <= index < |ts| && ts[index].value != ">"
    requires CellRun(ts[start..]) ==
             (atoms + CellRun(ts[index..]).0, index - start + CellRun(ts[index..]).1)
    ensures
      var (more, k) := CellStep(ts[index..]);
      && index + k <= |ts|
      && CellRun(ts[start..]) ==
         (atoms + more + CellRun(ts[index + k..]).0, index + k - start + CellRun(ts[index + k..]).1)
  {
    hide CellStep;
    var rest := ts[index..];
    var (more, k) := CellStep(rest);
    assert ts[index + k..] == rest[k..];
    assert atoms + (more + CellRun(rest[k..]).0) == atoms + more + CellRun(rest[k..]).0;
  }

  lemma SlashRunStep(ts: seq<Token>, index: nat)
    requires index < |ts| && ts[index].value !in {" ", ">", ","}
    ensures SlashRun(ts[index..]) ==
      if ts[index].value == "/" then (ts[index].value, 1)
      else (ts[index].value + SlashRun(ts[index + 1..]).0, SlashRun(ts[index + 1..]).1 + 1)
  {
    assert ts[index + 1..] == ts[index..][1..];
  }

  lemma SlashRunEnd(ts: seq<Token>)
    requires ts == [] || ts[0].value in {" ", ">", ","}
    ensures SlashRun(ts) == ("", 0)
  {
  }

  method ReadSlash(ts: seq<Token>, start: nat) returns (raw: string, index: nat)
    requires start <= |ts|
    ensures start <= index <= |ts| && SlashRun(ts[start..]) == (raw, index - start)
  {
    hide SlashRun;
    raw := "";
    index := start;
    assert "" + SlashRun(ts[index..]).0 == SlashRun(ts[index..]).0;
    while index < |ts| && ts[index].value !in {" ", ">", ","}
      invariant start <= index <= |ts|
      invariant SlashRun(ts[start..]) == (raw + SlashRun(ts[index..]).0, index - start + SlashRun(ts[index..]).1)
    {
      SlashRunStep(ts, index);
      ghost var more := SlashRun(ts[index + 1..]).0;
      assert raw + (ts[index].value + more) == raw + ts[index].value + more;
      raw := raw + ts[index].value;
      index := index + 1;
      if ts[index - 1].value == "/" {
        return;
      }
    }
    SlashRunEnd(ts[index..]);
    assert raw + "" == raw;
  }

  method ReadCells(ts: seq<Token>, start: nat) returns (atoms: seq<Atom>, index: nat)
    requires start <= |ts|
    ensures start <= index <= |ts| && CellRun(ts[start..]) == (atoms, index - start)
  {
    hide CellRun, SlashRun, ParseInt;
    atoms := [];
    index := start;
    assert [] + CellRun(ts[index..]).0 == CellRun(ts[index..]).0;
    while index < |ts| && ts[index].value != ">"
      invariant start <= index <= |ts|
      invariant CellRun(ts[start..]) == (atoms + CellRun(ts[index..]).0, index - start + CellRun(ts[index..]).1)
    {
      CellRunStep(ts, start, index, atoms);
      ghost var rest := ts[index..];
      ghost var before := atoms;
      var value := ts[index].value;
      var next := index + 1;
      var more: seq<Atom> := [];
      if value == "&" {
        if next < |ts| {
          more := [RefName(ts[next].value)];
          next := next + 1;
        } else {
          more := [MissingLabel];
        }
      } else if value == "/" {
        var raw;
        raw, next := ReadSlash(ts, next);
        more := [RawAtom("/" + raw)];
        assert rest[1..] == ts[index + 1..];
      } else if value != "," {
        match ParseInt(value) {
          case Some(n) => more := [Number(n)];
          case None => more := [RawAtom(value)];
        }
      }
      assert CellStep(rest) == (more, next - index);
      atoms := atoms + more;
      index := next;
    }
    CellRunEnd(ts[index..]);
    assert atoms + [] == atoms;
  }

  lemma CellRunEnd(ts: seq<Token>)
    requires ts == [] || ts[0].value == ">"
    ensures CellRun(ts) == ([], 0)
  {
  }

  lemma ByteRunStep(ts: seq<Token>, start: nat, index: nat, items: seq<string>)
    requires start <= index < |ts| && ts[index].value != "]"
    requires ByteRun(ts[start..]) == (items + ByteRun(ts[index..]).0, index - start + ByteRun(ts[index..]).1)
    ensures
      var more := if ts[index].value != "," then [NormaliseByte(ts[index].value)] else [];
      ByteRun(ts[start..]) ==
      (items + more + ByteRun(ts[index + 1..]).0, index + 1 - start + ByteRun(ts[index + 1..]).1)
  {
    hide NormaliseByte;
    var rest := ts[index..];
    assert ts[index + 1..] == rest[1..];
    var more := if ts[index].value != "," then [NormaliseByte(ts[index].value)] else [];
    assert ByteRun(rest) == (more + ByteRun(rest[1..]).0, 1 + ByteRun(rest[1..]).1);
    assert items + (more + ByteRun(rest[1..]).0) == items + more + ByteRun(rest[1..]).0;
  }

  lemma ByteRunEnd(ts: seq<Token>)
    requires ts == [] || ts[0].value == "]"
    ensures ByteRun(ts) == ([], 0)
  {
  }

  method ReadBytes(ts: seq<Token>, start: nat) returns (items: seq<string>, index: nat)
    requires start <= |ts|
    ensures start <= index <= |ts| && ByteRun(ts[start..]) == (items, index - start)
  {
    hide NormaliseByte, ByteRun;
    items := [];
    index := start;
    assert [] + ByteRun(ts[index..]).0 == ByteRun(ts[index..]).0;
    while index < |ts| && ts[index].value != "]"
      invariant start <= index <= |ts|
      invariant ByteRun(ts[start..]) == (items + ByteRun(ts[index..]).0, index - start + ByteRun(ts[index..]).1)
    {
      ByteRunStep(ts, start, index, items);
      var more := if ts[index].value != "," then [NormaliseByte(ts[index].value)] else [];
      items := items + more;
      index := index + 1;
    }
    ByteRunEnd(ts[index..]);
    assert items + [] == items;
  }

  lemma StringRunStep(ts: seq<Token>, start: nat, index: nat, items: seq<string>)
    requires start <= index < |ts| && ts[index].kind == Str
    requires StringRun(ts[start..]) ==
             (items + StringRun(ts[index..]).0, index - start + StringRun(ts[index..]).1)
    ensures
      var k := StringStep(ts[index..]);
      && index + k <= |ts|
      && StringRun(ts[start..]) ==
      (items + SplitNul(ts[index].value) + StringRun(ts[index + k..]).0, index + k - start + StringRun(ts[index + k..]).1)
  {
    hide SplitNul, StringStep;
    var rest := ts[index..];
    var k := StringStep(rest);
    assert ts[index + k..] == rest[k..];
    var more := SplitNul(ts[index].value);
    assert StringRun(rest) == (more + StringRun(rest[k..]).0, k + StringRun(rest[k..]).1);
    assert items + (more + StringRun(rest[k..]).0) == items + more + StringRun(rest[k..]).0;
  }

  method ReadStrings(ts: seq<Token>, start: nat) returns (items: seq<string>, index: nat)
    requires start <= |ts|
    ensures start <= index <= |ts| && StringRun(ts[start..]) == (items, index - start)
  {
    hide SplitNul, StringRun;
    items := [];
    index := start;
    assert [] + StringRun(ts[index..]).0 == StringRun(ts[index..]).0;
    while index < |ts| && ts[index].kind == Str
      invariant start <= index <= |ts|
      invariant StringRun(ts[start..]) == (items + StringRun(ts[index..]).0, index - start + StringRun(ts[index..]).1)
    {
      StringRunStep(ts, start, index, items);
      items := items + SplitNul(ts[index].value);
      index := index + 1;
      if index < |ts| && ts[index].value == "," {
        index := index + 1;
      }
    }
    StringRunEnd(ts[index..]);
    assert items + [] == items;
  }

  lemma StringRunEnd(ts: seq<Token>)
    requires ts == [] || ts[0].kind != Str
    ensures StringRun(ts) == ([], 0)
  {
  }

  method ReadRaw(ts: seq<Token>, start: nat) returns (items: seq<string>, index: nat)
    requires start <= |ts|
    ensures start <= index <= |ts| && RawRun(ts[start..]) == (items, index - start)
  {
    items := [];
    index := start;
    assert [] + RawRun(ts[index..]).0 == RawRun(ts[index..]).0;
    while index < |ts| && ts[index].value !in {",", "<", "["}
      invariant start <= index <= |ts|
      invariant RawRun(ts[start..]) == (items + RawRun(ts[index..]).0, index - start + RawRun(ts[index..]).1)
    {
      ghost var rest := ts[index..];
      assert ts[index + 1..] == rest[1..];
      assert items + ([ts[index].value] + RawRun(rest[1..]).0) == items + [ts[index].value] + RawRun(rest[1..]).0;
      items := items + [ts[index].value];
      index := index + 1;
    }
    assert items + [] == items;
  }

  lemma ParsePartsStep(ts: seq<Token>, index: nat, parts: seq<Part>)
    requires index < |ts|
    requires ParseParts(ts) == parts + ParseParts(ts[index..])
    ensures
      var (more, k) := PartStep(ts[index..]);
      index + k <= |ts| && ParseParts(ts) == parts + more + ParseParts(ts[index + k..])
  {
    hide PartStep;
    var rest := ts[index..];
    var (more, k) := PartStep(rest);
    assert ts[index + k..] == rest[k..];
    assert parts + (more + ParseParts(rest[k..])) == parts + more + ParseParts(rest[k..]);
  }

  method ParsePropertyValue(name: string, tokens: seq<Token>, line: nat) returns (p: Property)
    ensures p == Property(name, ParseParts(tokens), false, line)
  {
    hide ParseParts, CellRun, ByteRun, StringRun, RawRun;
    var parts: seq<Part> := [];
    var index := 0;
    assert tokens[0..] == tokens;
    assert [] + ParseParts(tokens) == ParseParts(tokens);
    while index < |tokens|
      invariant 0 <= index <= |tokens|
      invariant ParseParts(tokens) == parts + ParseParts(tokens[index..])
    {
      ParsePartsStep(tokens, index, parts);
      ghost var rest := tokens[index..];
      assert rest[1..] == tokens[index + 1..];
      var token := tokens[index];
      var more: seq<Part> := [];
      var next := index + 1;
      if token.value == "<" {
        var atoms;
        atoms, next := ReadCells(tokens, next);
        if next < |tokens| {
          next := next + 1;
        }
        more := [Cells(atoms)];
      } else if token.value == "[" {
        var items;
        items, next := ReadBytes(tokens, next);
        if next < |tokens| {
          next := next + 1;
        }
        more := [Bytes(items)];
      } else if token.value != "," && token.kind == Str {
        var items;
        items, next := ReadStrings(tokens, index);
        more := [Strings(items)];
      } else if token.value != "," {
        var items;
        items, next := ReadRaw(tokens, index);
        more := [Raw(items)];
      }
      assert PartStep(rest) == (more, next - index);
      parts := parts + more;
      index := next;
    }
    assert tokens[index..] == [];
    NoParts();
    assert parts + [] == parts;
    return Property(name, parts, false, line);
  }

  lemma NoParts()
    ensures ParseParts([]) == []
  {
  }
}
