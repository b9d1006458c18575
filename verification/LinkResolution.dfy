/**
 Resolving published links. Every link text was checked by a lexical walk from the link's own
 directory; following links through links, in any published tree, still never leaves the root.
 */
module LinkResolution {
  import opened Wrappers
  import opened MemberPaths
  import opened Publication

  /** Where a path leads: a place below the root, a place above it, or on and on so far. */
  datatype Resolution = Inside(place: Path) | Outside | StillGoing

  /** One component at a time from a directory, each link replaced by its text. */
  function Resolve(tree: Tree, dir: Path, rest: seq<string>, fuel: nat): Resolution
    decreases fuel
  {
    if rest == [] then Inside(dir)
    else if fuel == 0 then StillGoing
    else if rest[0] == ".." then
      if dir == [] then Outside else Resolve(tree, dir[..|dir| - 1], rest[1..], fuel - 1)
    else
      var p := dir + [rest[0]];
      if p in tree && tree[p].Link? then Resolve(tree, dir, tree[p].target + rest[1..], fuel - 1)
      else Resolve(tree, p, rest[1..], fuel - 1)
  }

  /** The `..` components in front. */
  function Climbs(s: seq<string>): (n: nat)
    ensures n <= |s|
  {
    if s != [] && s[0] == ".." then 1 + Climbs(s[1..]) else 0
  }

  // ----- what the checks of the links give -----

  /** The text climbs no further than the link's own directory is deep. */
  predicate SafeTarget(key: Path, target: seq<string>) {
    key != [] && DotsThenPlain(target) && Climbs(target) < |key|
  }

  ghost predicate SafeTree(tree: Tree) {
    forall p | p in tree && tree[p].Link? :: SafeTarget(p, tree[p].target)
  }

  /** A link's text came out of the link check for its member. */
  ghost predicate Checked(e: Entry) {
    e.kind.Link? ==> IsMember(e.key) && exists link :: SafeLink(e.key, link, false) == Ok(e.kind.target)
  }

  lemma {:induction false} PlainDoesNotClimb(s: seq<string>)
    requires Plain(s)
    ensures DotsThenPlain(s) && Climbs(s) == 0
  {
    if s != [] {
      assert s[0] in s;
    }
  }

  /** All components are `..`, or the last one is plain and the rest climbs as far. */
  lemma {:induction false} LastComponent(s: seq<string>)
    requires DotsThenPlain(s) && s != []
    ensures DotsThenPlain(s[..|s| - 1])
    ensures s[|s| - 1] == ".." ==> Climbs(s) == |s| && Climbs(s[..|s| - 1]) == |s| - 1
    ensures s[|s| - 1] != ".." ==> Climbs(s) == Climbs(s[..|s| - 1]) && !Dotted(s[|s| - 1])
  {
    var front := s[..|s| - 1];
    if s[0] != ".." {
      assert forall x | x in front :: x in s;
      assert s[|s| - 1] in s;
      PlainDoesNotClimb(s);
      PlainDoesNotClimb(front);
    } else if |s| > 1 {
      LastComponent(s[1..]);
      assert front[1..] == s[1..][..|s| - 2] && front[0] == s[0];
    }
  }

  /** A normalised text can be walked from a directory exactly when it climbs no further than that is deep. */
  lemma {:induction false} WalkClimbs(at: Path, s: seq<string>)
    requires DotsThenPlain(s)
    ensures Walk(at, s).Some? <==> Climbs(s) <= |at|
    ensures Walk(at, s).Some? ==> |Walk(at, s).value| == |at| + |s| - 2 * Climbs(s)
    decreases |s|
  {
    if s != [] {
      LastComponent(s);
      WalkClimbs(at, s[..|s| - 1]);
    }
  }

  lemma CheckedIsSafe(e: Entry)
    requires Checked(e) && e.kind.Link?
    ensures SafeTarget(e.key, e.kind.target)
  {
    var link :| SafeLink(e.key, link, false) == Ok(e.kind.target);
    LinkStaysInside(e.key, link);
    NormDots(Split(link));
    WalkClimbs(DirName(e.key), e.kind.target);
  }

  lemma PublishedIsSafe(tree: Tree, es: seq<Entry>)
    requires IsTreeOf(tree, es) && forall e | e in es :: Checked(e)
    ensures SafeTree(tree)
  {
    hide SafeTarget, Checked;
    forall p | p in tree && tree[p].Link? ensures SafeTarget(p, tree[p].target) {
      assert Holds(es, p) && !Above(es, p);
      HoldsIsAboveOrKey(es, p);
      var e :| e in es && e.key == p;
      CheckedIsSafe(e);
    }
  }

  // ----- following links -----

  /** No link stands at the place or above it. */
  ghost predicate Real(tree: Tree, place: Path) {
    forall k | 0 < k <= |place| :: place[..k] in tree ==> !tree[place[..k]].Link?
  }

  lemma RealStep(tree: Tree, dir: Path, part: string)
    requires Real(tree, dir) && (dir + [part] in tree ==> !tree[dir + [part]].Link?)
    ensures Real(tree, dir + [part])
  {
    var p := dir + [part];
    forall k | 0 < k <= |p| ensures p[..k] in tree ==> !tree[p[..k]].Link? {
      if k <= |dir| {
        assert p[..k] == dir[..k];
      } else {
        assert p[..k] == p;
      }
    }
  }

  lemma RealUp(tree: Tree, dir: Path)
    requires Real(tree, dir) && dir != []
    ensures Real(tree, dir[..|dir| - 1])
  {
    var up := dir[..|dir| - 1];
    forall k | 0 < k <= |up| ensures up[..k] in tree ==> !tree[up[..k]].Link? {
      assert up[..k] == dir[..k];
    }
  }

  lemma {:induction false} ClimbsConcat(s: seq<string>, rest: seq<string>)
    requires DotsThenPlain(s) && Plain(rest)
    ensures DotsThenPlain(s + rest) && Climbs(s + rest) == Climbs(s)
  {
    if s == [] {
      assert s + rest == rest;
      PlainDoesNotClimb(rest);
    } else if s[0] == ".." {
      ClimbsConcat(s[1..], rest);
      assert (s + rest)[1..] == s[1..] + rest;
    } else {
      assert forall x | x in s + rest :: x in s || x in rest;
      PlainDoesNotClimb(s);
      PlainDoesNotClimb(s + rest);
    }
  }

  /** A text that climbs no further than the directory is deep leads to no place above the root. */
  lemma {:induction false} ResolvesInside(tree: Tree, dir: Path, rest: seq<string>, fuel: nat)
    requires SafeTree(tree) && Real(tree, dir) && DotsThenPlain(rest) && Climbs(rest) <= |dir|
    ensures !Resolve(tree, dir, rest, fuel).Outside?
    ensures Resolve(tree, dir, rest, fuel).Inside? ==> Real(tree, Resolve(tree, dir, rest, fuel).place)
    decreases fuel
  {
    hide Real;
    if rest != [] && fuel > 0 {
      if rest[0] == ".." {
        RealUp(tree, dir);
        ResolvesInside(tree, dir[..|dir| - 1], rest[1..], fuel - 1);
      } else {
        var p := dir + [rest[0]];
        assert forall x | x in rest[1..] :: x in rest;
        if p in tree && tree[p].Link? {
          ClimbsConcat(tree[p].target, rest[1..]);
          ResolvesInside(tree, dir, tree[p].target + rest[1..], fuel - 1);
        } else {
          RealStep(tree, dir, rest[0]);
          PlainDoesNotClimb(rest[1..]);
          ResolvesInside(tree, p, rest[1..], fuel - 1);
        }
      }
    }
  }

  /**
   In a tree published from checked entries, any path below the root, through whatever links, leads
   to a place below the root with no link left in it, or never ends.
   */
  lemma LinksResolveInside(tree: Tree, es: seq<Entry>, path: Path, fuel: nat)
    requires IsTreeOf(tree, es) && (forall e | e in es :: Checked(e)) && Plain(path)
    ensures !Resolve(tree, [], path, fuel).Outside?
    ensures Resolve(tree, [], path, fuel).Inside? ==> Real(tree, Resolve(tree, [], path, fuel).place)
  {
    PublishedIsSafe(tree, es);
    PlainDoesNotClimb(path);
    hide SafeTree, IsTreeOf;
    ResolvesInside(tree, [], path, fuel);
  }

  // ----- loops -----

  /** The path is followed for ever. */
  ghost predicate Loops(tree: Tree, path: Path) {
    forall fuel :: Resolve(tree, [], path, fuel).StillGoing?
  }

  /** Once there, more steps change nothing. */
  lemma {:induction false} ArrivesOnce(tree: Tree, dir: Path, rest: seq<string>, fuel: nat, more: nat)
    requires fuel <= more && !Resolve(tree, dir, rest, fuel).StillGoing?
    ensures Resolve(tree, dir, rest, more) == Resolve(tree, dir, rest, fuel)
    decreases fuel
  {
    if rest != [] {
      if rest[0] == ".." {
        if dir != [] {
          ArrivesOnce(tree, dir[..|dir| - 1], rest[1..], fuel - 1, more - 1);
        }
      } else {
        var p := dir + [rest[0]];
        if p in tree && tree[p].Link? {
          ArrivesOnce(tree, dir, tree[p].target + rest[1..], fuel - 1, more - 1);
        } else {
          ArrivesOnce(tree, p, rest[1..], fuel - 1, more - 1);
        }
      }
    }
  }

  /** A member's path either loops or leads to one place, inside: nothing else can go wrong with a link. */
  lemma OnlyLoopsFail(tree: Tree, es: seq<Entry>, path: Path)
    requires IsTreeOf(tree, es) && (forall e | e in es :: Checked(e)) && Plain(path)
    ensures !Loops(tree, path) <==>
      exists place :: Real(tree, place) && exists fuel :: Resolve(tree, [], path, fuel) == Inside(place)
    ensures forall a, b :: Resolve(tree, [], path, a).Inside? && Resolve(tree, [], path, b).Inside? ==>
      Resolve(tree, [], path, a) == Resolve(tree, [], path, b)
  {
    hide IsTreeOf, Resolve, Real, Checked;
    if !Loops(tree, path) {
      var fuel :| !Resolve(tree, [], path, fuel).StillGoing?;
      LinksResolveInside(tree, es, path, fuel);
      assert Resolve(tree, [], path, fuel) == Inside(Resolve(tree, [], path, fuel).place);
    }
    forall a, b | Resolve(tree, [], path, a).Inside? && Resolve(tree, [], path, b).Inside?
      ensures Resolve(tree, [], path, a) == Resolve(tree, [], path, b)
    {
      if a <= b {
        ArrivesOnce(tree, [], path, a, b);
      } else {
        ArrivesOnce(tree, [], path, b, a);
      }
    }
  }

  /** Loops exist: each of two links names the other. */
  lemma TwoLinksLoop(fuel: nat)
    ensures
      var tree: Tree := map[["a"] := Link(["b"]), ["b"] := Link(["a"])];
      Resolve(tree, [], ["a"], fuel).StillGoing? && Resolve(tree, [], ["b"], fuel).StillGoing?
  {
    var tree: Tree := map[["a"] := Link(["b"]), ["b"] := Link(["a"])];
    if fuel > 0 {
      TwoLinksLoop(fuel - 1);
      assert [] + ["a"] == ["a"] && [] + ["b"] == ["b"];
      assert ["b"] + ["a"][1..] == ["b"] && ["a"] + ["b"][1..] == ["a"];
    }
  }
}
