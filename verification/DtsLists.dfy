/**
 The lists of a property value, token by token: what each token adds, which tokens separate and which
 close, and what one part leaves to the next.
 */
module DtsLists {
  import opened Wrappers
  import opened DtsText
  import opened DtsScanner
  import opened DtsValues

  // ----- cells -----

  /** A numeral is a number, anything else is raw. */
  function CellOf(value: string): Atom {
    match ParseInt(value)
    case Some(n) => Number(n)
    case None => RawAtom(value)
  }

  /** An ampersand and the token behind it, whatever it is, are one reference. */
  lemma LabelCells(t: Token, rest: seq<Token>)
    requires t.value == "&"
    ensures rest == [] ==> CellRun([t] + rest) == ([MissingLabel], 1)
    ensures rest != [] ==>
      CellRun([t] + rest) == ([RefName(rest[0].value)] + CellRun(rest[1..]).0, CellRun(rest[1..]).1 + 2)
  {
    hide CellRun, ParseInt, SlashRun;
    var ts := [t] + rest;
    if rest == [] {
      assert ts[1..] == [];
      CellRunUnfold(ts, [MissingLabel], 1, []);
      NoCells();
      assert [MissingLabel] + [] == [MissingLabel];
    } else {
      assert ts[2..] == rest[1..] && ts[1] == rest[0];
      CellRunUnfold(ts, [RefName(rest[0].value)], 2, rest[1..]);
    }
  }

  lemma NoCells()
    ensures CellRun([]) == ([], 0)
  {
  }

  /** What any other first token of a cell list makes, unless it is a slash. */
  lemma CellsExactly(t: Token, rest: seq<Token>)
    requires t.value != "&" && t.value != "/"
    ensures
      CellRun([t] + rest) ==
      if t.value == ">" then ([], 0)
      else if t.value == "," then (CellRun(rest).0, CellRun(rest).1 + 1)
      else ([CellOf(t.value)] + CellRun(rest).0, CellRun(rest).1 + 1)
  {
    hide ParseInt, SlashRun;
    var ts := [t] + rest;
    assert ts[0] == t && ts[1..] == rest;
    if t.value == "," {
      CellRunUnfold(ts, [], 1, rest);
      assert [] + CellRun(rest).0 == CellRun(rest).0;
    } else if t.value != ">" {
      CellRunUnfold(ts, [CellOf(t.value)], 1, rest);
    }
  }

  /** The texts of the tokens, one behind the other. */
  function Glued(ts: seq<Token>): string {
    if ts == [] then "" else ts[0].value + Glued(ts[1..])
  }

  predicate InSlash(t: Token) {
    t.value != "/" && t.value != " " && t.value != ">" && t.value != ","
  }

  lemma {:induction false} SlashRunExactly(run: seq<Token>, rest: seq<Token>)
    requires forall t | t in run :: InSlash(t)
    requires rest == [] || !InSlash(rest[0])
    ensures
      SlashRun(run + rest) ==
      if rest != [] && rest[0].value == "/" then (Glued(run) + "/", |run| + 1) else (Glued(run), |run|)
  {
    var ts := run + rest;
    if run == [] {
      assert ts == rest && "" + "/" == "/";
    } else {
      assert ts[0] == run[0] && run[0] in run && InSlash(run[0]) && ts[1..] == run[1..] + rest;
      SlashRunExactly(run[1..], rest);
      assert run[0].value + (Glued(run[1..]) + "/") == run[0].value + Glued(run[1..]) + "/";
    }
  }

  predicate StartsWithSlash(ts: seq<Token>) {
    ts != [] && ts[0].value == "/"
  }

  /** The texts with a slash in front, and one behind if the run is closed. */
  function SlashAtom(run: seq<Token>, closed: bool): Atom {
    RawAtom("/" + (Glued(run) + if closed then "/" else ""))
  }

  /**
   A slash in a cell list starts one raw cell: the texts of `run`, which goes up to the next slash and takes
   it along, or up to a comma, a closing bracket or the end. Everything behind is read as before.
   */
  lemma SlashCellExactly(ts: seq<Token>, run: seq<Token>, rest: seq<Token>)
    requires StartsWithSlash(ts) && ts[1..] == run + rest
    requires (forall t | t in run :: InSlash(t)) && (rest == [] || !InSlash(rest[0]))
    ensures
      var closed := StartsWithSlash(rest);
      var (k, next) := if closed then (|run| + 2, rest[1..]) else (|run| + 1, rest);
      CellRun(ts) == ([SlashAtom(run, closed)] + CellRun(next).0, k + CellRun(next).1)
  {
    hide SlashRun, SlashAtom, InSlash, CellStep, CellRun, Glued;
    SlashStep(ts, run, rest);
    var closed := StartsWithSlash(rest);
    var k := |run| + if closed then 2 else 1;
    var next := if closed then rest[1..] else rest;
    assert k <= |ts| && ts[k..] == next by {
      DropRun(ts, run, rest);
    }
    hide StartsWithSlash;
    CellRunUnfold(ts, [SlashAtom(run, closed)], k, next);
  }

  lemma DropRun(ts: seq<Token>, run: seq<Token>, rest: seq<Token>)
    requires ts != [] && ts[1..] == run + rest
    ensures |ts| == |run| + 1 + |rest| && ts[|run| + 1..] == rest && (rest != [] ==> ts[|run| + 2..] == rest[1..])
  {
    assert forall i | 0 <= i < |run + rest| :: ts[1 + i] == (run + rest)[i];
  }

  lemma CellRunUnfold(ts: seq<Token>, atoms: seq<Atom>, k: nat, next: seq<Token>)
    requires ts != [] && ts[0].value != ">" && CellStep(ts) == (atoms, k) && k <= |ts| && ts[k..] == next
    ensures CellRun(ts) == (atoms + CellRun(next).0, k + CellRun(next).1)
  {
    hide CellStep;
  }

  lemma SlashStep(ts: seq<Token>, run: seq<Token>, rest: seq<Token>)
    requires StartsWithSlash(ts) && ts[1..] == run + rest
    requires (forall t | t in run :: InSlash(t)) && (rest == [] || !InSlash(rest[0]))
    ensures
      var closed := StartsWithSlash(rest);
      ts[0].value != ">" && CellStep(ts) == ([SlashAtom(run, closed)], |run| + if closed then 2 else 1)
  {
    SlashRunExactly(run, rest);
    hide SlashRun, Glued, InSlash;
    assert Glued(run) + "" == Glued(run);
  }

  // ----- bytes, strings and bare texts -----

  lemma BytesExactly(t: Token, rest: seq<Token>)
    ensures ByteRun([]) == ([], 0)
    ensures t.value == "]" ==> ByteRun([t] + rest) == ([], 0)
    ensures t.value == "," ==> ByteRun([t] + rest) == (ByteRun(rest).0, ByteRun(rest).1 + 1)
    ensures t.value !in {"]", ","} ==>
      ByteRun([t] + rest) == ([NormaliseByte(t.value)] + ByteRun(rest).0, ByteRun(rest).1 + 1)
  {
    hide NormaliseByte;
    assert ([t] + rest)[1..] == rest;
    assert [] + ByteRun(rest).0 == ByteRun(rest).0;
  }

  /** A string token adds the strings in it, and the comma right behind it goes along. */
  lemma StringsExactly(t: Token, rest: seq<Token>)
    ensures StringRun([]) == ([], 0)
    ensures t.kind != Str ==> StringRun([t] + rest) == ([], 0)
    ensures t.kind == Str && (rest == [] || rest[0].value != ",") ==>
      StringRun([t] + rest) == (SplitNul(t.value) + StringRun(rest).0, StringRun(rest).1 + 1)
    ensures t.kind == Str && rest != [] && rest[0].value == "," ==>
      StringRun([t] + rest) == (SplitNul(t.value) + StringRun(rest[1..]).0, StringRun(rest[1..]).1 + 2)
  {
    hide SplitNul;
    var ts := [t] + rest;
    assert ts[1..] == rest;
    if rest != [] {
      assert ts[1] == rest[0] && ts[2..] == rest[1..];
    }
  }

  lemma TextsExactly(t: Token, rest: seq<Token>)
    ensures RawRun([]) == ([], 0)
    ensures t.value in {",", "<", "["} ==> RawRun([t] + rest) == ([], 0)
    ensures t.value !in {",", "<", "["} ==> RawRun([t] + rest) == ([t.value] + RawRun(rest).0, RawRun(rest).1 + 1)
  {
    assert ([t] + rest)[1..] == rest;
  }

  // ----- the parts of a value -----

  /** The tokens behind a list of `n` and the bracket that closes it, if there is one. */
  function Behind(rest: seq<Token>, n: nat): seq<Token>
    requires n <= |rest|
  {
    if n < |rest| then rest[n + 1..] else []
  }

  /** What the first token of a value opens, and what is read behind it. */
  lemma PartsExactly(t: Token, rest: seq<Token>)
    ensures ParseParts([]) == []
    ensures t.value == "," ==> ParseParts([t] + rest) == ParseParts(rest)
    ensures t.value == "<" ==>
      ParseParts([t] + rest) == [Cells(CellRun(rest).0)] + ParseParts(Behind(rest, CellRun(rest).1))
    ensures t.value == "[" ==>
      ParseParts([t] + rest) == [Bytes(ByteRun(rest).0)] + ParseParts(Behind(rest, ByteRun(rest).1))
    ensures t.value !in {",", "<", "["} && t.kind == Str ==>
      var run := StringRun([t] + rest);
      run.1 > 0 && ParseParts([t] + rest) == [Strings(run.0)] + ParseParts(([t] + rest)[run.1..])
    ensures t.value !in {",", "<", "["} && t.kind != Str ==>
      var run := RawRun([t] + rest);
      run.1 > 0 && ParseParts([t] + rest) == [Raw(run.0)] + ParseParts(([t] + rest)[run.1..])
  {
    hide CellRun, ByteRun, StringRun, RawRun;
    var ts := [t] + rest;
    assert ts[0] == t && ts[1..] == rest;
    if t.value == "," {
      assert [] + ParseParts(rest) == ParseParts(rest);
    } else if t.value == "<" {
      DropList(t, rest, CellRun(rest).1);
    } else if t.value == "[" {
      DropList(t, rest, ByteRun(rest).1);
    }
  }

  lemma DropList(t: Token, rest: seq<Token>, n: nat)
    requires n <= |rest|
    ensures 1 + Closed(n, |rest|) <= |rest| + 1 && ([t] + rest)[1 + Closed(n, |rest|)..] == Behind(rest, n)
  {
  }
}
