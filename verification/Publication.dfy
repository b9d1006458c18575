/**
 Publishing the members of a staged archive into a fresh directory tree: directories by depth,
 then files, then links. It completes exactly when no file or link stands above another member,
 and what is published does not depend on the order of the archive.
 */
module Publication {
  import opened Wrappers
  import opened Ordering
  import opened MemberPaths

  type Path = seq<string>

  datatype Kind = Directory | Regular(size: nat) | Link(target: seq<string>)

  datatype Entry = Entry(key: Path, kind: Kind)

  /** The published tree below the output directory, which is the empty path. */
  type Tree = map<Path, Kind>

  datatype PublishError = LinkAsParent(key: Path) | Collision(key: Path) | ParentNotDirectory(key: Path) | TooLarge | LinkEscapes(key: Path)

  const MAX_MEMBER_BYTES: int := 32 * 1024 * 1024 * 1024

  // ----- what a list of entries must look like -----

  ghost predicate KeysApart(es: seq<Entry>) {
    forall i, j | 0 <= i < j < |es| :: es[i].key != es[j].key
  }

  ghost predicate DistinctKeys(es: seq<Entry>) {
    (forall e | e in es :: e.key != []) && KeysApart(es)
  }

  /** No file and no link is a proper ancestor of another entry. */
  ghost predicate NoLeafAbove(es: seq<Entry>) {
    forall a, b | a in es && b in es && a.key < b.key :: a.kind.Directory?
  }

  ghost predicate Above(es: seq<Entry>, p: Path) {
    exists e | e in es :: p < e.key
  }

  ghost predicate Holds(es: seq<Entry>, p: Path) {
    p != [] && exists e | e in es :: p <= e.key
  }

  /** The tree of the entries: their keys, and directories at every proper prefix. */
  ghost predicate IsTreeOf(tree: Tree, es: seq<Entry>) {
    && (forall p :: p in tree <==> Holds(es, p))
    && (forall e | e in es :: e.key in tree && tree[e.key] == e.kind)
    && (forall p | p in tree && Above(es, p) :: tree[p] == Directory)
  }

  lemma HoldsIsAboveOrKey(es: seq<Entry>, p: Path)
    requires Holds(es, p)
    ensures Above(es, p) || exists e :: e in es && e.key == p
  {
    var e :| e in es && p <= e.key;
    if p != e.key {
      assert p < e.key;
    }
  }

  /** A list of entries has at most one tree. */
  lemma TreeIsUnique(a: Tree, b: Tree, es: seq<Entry>)
    requires IsTreeOf(a, es) && IsTreeOf(b, es)
    ensures a == b
  {
    assert a.Keys == b.Keys by {
      forall p ensures p in a <==> p in b {
        assert p in a <==> Holds(es, p);
        assert p in b <==> Holds(es, p);
      }
    }
    hide Holds, Above;
    forall p | p in a ensures a[p] == b[p] {
      HoldsIsAboveOrKey(es, p);
    }
  }

  // How the notions grow with one more entry.

  lemma HoldsGrows(es: seq<Entry>, e: Entry, p: Path)
    ensures e.key != [] ==> (Holds(es + [e], p) <==> Holds(es, p) || p == e.key || (p != [] && p < e.key))
    ensures Above(es + [e], p) <==> Above(es, p) || p < e.key
  {
    var all := es + [e];
    assert forall d :: d in all <==> d in es || d == e;
  }

  predicate FitsWith(d: Entry, e: Entry) {
    (d.key < e.key ==> d.kind.Directory?) && (e.key < d.key ==> e.kind.Directory?)
  }

  lemma NoLeafGrows(es: seq<Entry>, e: Entry)
    requires NoLeafAbove(es)
    ensures NoLeafAbove(es + [e]) <==> forall d | d in es :: FitsWith(d, e)
  {
    var all := es + [e];
    assert forall d :: d in all <==> d in es || d == e;
    if NoLeafAbove(all) {
      forall d | d in es ensures FitsWith(d, e) {
        assert d in all && e in all;
      }
    }
    if forall d | d in es :: FitsWith(d, e) {
      forall a, b | a in all && b in all && a.key < b.key ensures a.kind.Directory? {
        if a in es && b == e {
          assert FitsWith(a, e);
        } else if a == e && b in es {
          assert FitsWith(b, e);
        }
      }
    }
  }

  // ----- one entry -----

  predicate HasBadParent(tree: Tree, key: Path) {
    exists k :: 1 <= k < |key| && key[..k] in tree && tree[key[..k]] != Directory
  }

  predicate UnderLink(key: Path, links: set<Path>) {
    exists k :: 1 <= k < |key| && key[..k] in links
  }

  /** `make_parent`: the missing ancestors become directories; any other ancestor must be one. */
  method MakeParent(tree: Tree, key: Path) returns (r: Result<Tree, PublishError>)
    requires key != []
    ensures r.Ok? <==> !HasBadParent(tree, key)
    ensures r.Err? ==> r.error == ParentNotDirectory(key)
    ensures r.Ok? ==>
      && (forall p :: p in r.value <==> p in tree || (p != [] && p < key))
      && (forall p | p in tree :: r.value[p] == tree[p])
      && (forall p | p in r.value && p !in tree :: r.value[p] == Directory)
  {
    var made := tree;
    for k := 1 to |key|
      invariant forall j :: 1 <= j < k && key[..j] in tree ==> tree[key[..j]] == Directory
      invariant forall p :: p in made <==> p in tree || (1 <= |p| < k && p < key)
      invariant forall p | p in tree :: made[p] == tree[p]
      invariant forall p | p in made && p !in tree :: made[p] == Directory
    {
      var parent := key[..k];
      assert forall p: Path | p < key && |p| == k :: p == parent;
      if parent in made {
        if made[parent] != Directory {
          return Err(ParentNotDirectory(key));
        }
      } else {
        made := made[parent := Directory];
      }
    }
    r := Ok(made);
  }

  /** A collision check, the parents and the entry itself. */
  method PublishOne(tree: Tree, e: Entry) returns (r: Result<Tree, PublishError>)
    requires e.key != []
    ensures r.Ok? <==> e.key !in tree && !HasBadParent(tree, e.key)
    ensures r.Ok? ==>
      && (forall p :: p in r.value <==> p in tree || p == e.key || (p != [] && p < e.key))
      && (forall p | p in tree :: r.value[p] == tree[p])
      && r.value[e.key] == e.kind
      && (forall p | p in r.value && p !in tree && p != e.key :: r.value[p] == Directory)
  {
    if e.key in tree {
      return Err(Collision(e.key));
    }
    var parents := MakeParent(tree, e.key);
    if parents.Err? {
      return parents;
    }
    r := Ok(parents.value[e.key := e.kind]);
  }

  lemma NewKey(es: seq<Entry>, e: Entry, d: Entry)
    requires DistinctKeys(es + [e]) && d in es
    ensures d.key != e.key && d.key != [] && e.key != []
  {
    var all := es + [e];
    var i :| 0 <= i < |es| && es[i] == d;
    assert all[i] == d && all[|es|] == e;
    assert d in all && e in all;
  }

  /** A key that is taken stands above some entry, since no entry has it. */
  lemma TakenKeyIsAbove(tree: Tree, es: seq<Entry>, e: Entry) returns (d: Entry)
    requires IsTreeOf(tree, es) && DistinctKeys(es + [e]) && e.key in tree
    ensures d in es && e.key < d.key
  {
    hide Above, DistinctKeys;
    assert Holds(es, e.key);
    d :| d in es && e.key <= d.key;
    NewKey(es, e, d);
  }

  /** A parent that is no directory is a leaf of the tree. */
  lemma BadParentClashes(tree: Tree, es: seq<Entry>, key: Path) returns (d: Entry)
    requires IsTreeOf(tree, es) && HasBadParent(tree, key)
    ensures d in es && d.key < key && !d.kind.Directory?
  {
    var k :| 1 <= k < |key| && key[..k] in tree && tree[key[..k]] != Directory;
    assert Holds(es, key[..k]);
    hide Holds;
    HoldsIsAboveOrKey(es, key[..k]);
    d :| d in es && d.key == key[..k];
  }

  /**
   Publishing one more entry onto the tree of the entries so far fails exactly when it would put
   a leaf above another entry; a directory never meets an entry below itself, because no
   deeper one was published yet.
   */
  lemma OneMore(tree: Tree, es: seq<Entry>, e: Entry)
    requires IsTreeOf(tree, es) && NoLeafAbove(es) && DistinctKeys(es + [e])
    requires e.kind.Directory? ==> forall d | d in es :: |d.key| <= |e.key|
    ensures e.key !in tree && !HasBadParent(tree, e.key) <==> NoLeafAbove(es + [e])
  {
    hide NoLeafAbove, DistinctKeys, IsTreeOf, HasBadParent, FitsWith;
    NoLeafGrows(es, e);
    if e.key in tree {
      var d := TakenKeyIsAbove(tree, es, e);
      NotDirectoryAbove(es, e, d);
    } else if HasBadParent(tree, e.key) {
      var d := BadParentClashes(tree, es, e.key);
      LeafAboveNew(d, e);
    } else {
      forall d | d in es ensures FitsWith(d, e) {
        NoClash(tree, es, e, d);
      }
    }
  }

  lemma NotDirectoryAbove(es: seq<Entry>, e: Entry, d: Entry)
    requires d in es && e.key < d.key
    requires e.kind.Directory? ==> forall d | d in es :: |d.key| <= |e.key|
    ensures !FitsWith(d, e)
  {
  }

  lemma LeafAboveNew(d: Entry, e: Entry)
    requires d.key < e.key && !d.kind.Directory?
    ensures !FitsWith(d, e)
  {
  }

  lemma NoClash(tree: Tree, es: seq<Entry>, e: Entry, d: Entry)
    requires IsTreeOf(tree, es) && DistinctKeys(es + [e]) && d in es
    requires e.key !in tree && !HasBadParent(tree, e.key)
    ensures FitsWith(d, e)
  {
    NewKey(es, e, d);
    if d.key < e.key {
      var k := |d.key|;
      assert e.key[..k] == d.key && d.key in tree && tree[d.key] == d.kind;
    }
    assert e.key < d.key ==> Holds(es, e.key);
  }

  lemma TreeGrows(tree: Tree, after: Tree, es: seq<Entry>, e: Entry)
    requires IsTreeOf(tree, es) && e.key != [] && e.key !in tree && !HasBadParent(tree, e.key)
    requires
      && (forall p :: p in after <==> p in tree || p == e.key || (p != [] && p < e.key))
      && (forall p | p in tree :: after[p] == tree[p])
      && after[e.key] == e.kind
      && (forall p | p in after && p !in tree && p != e.key :: after[p] == Directory)
    ensures IsTreeOf(after, es + [e])
  {
    assert [] !in tree;
    hide Holds, Above;
    forall p ensures p in after <==> Holds(es + [e], p) {
      HoldsGrows(es, e, p);
    }
    GrownKeys(tree, after, es, e);
    forall p | p in after && Above(es + [e], p) ensures after[p] == Directory {
      GrownKind(tree, after, es, e, p);
    }
  }

  lemma GrownKeys(tree: Tree, after: Tree, es: seq<Entry>, e: Entry)
    requires forall d | d in es :: d.key in tree && tree[d.key] == d.kind
    requires (forall p | p in tree :: p in after && after[p] == tree[p]) && e.key in after && after[e.key] == e.kind
    ensures forall d | d in es + [e] :: d.key in after && after[d.key] == d.kind
  {
  }

  lemma GrownKind(tree: Tree, after: Tree, es: seq<Entry>, e: Entry, p: Path)
    requires IsTreeOf(tree, es) && e.key != [] && e.key !in tree && !HasBadParent(tree, e.key) && [] !in tree
    requires p in after && Above(es + [e], p) && (p in tree ==> after[p] == tree[p])
    requires p !in tree && p != e.key ==> after[p] == Directory
    ensures after[p] == Directory
  {
    HoldsGrows(es, e, p);
    if p == e.key {
      NothingBelowNew(tree, es, e);
    }
    hide Holds, Above;
    if p in tree && p < e.key {
      ParentIsDirectory(tree, e.key, p);
    }
  }

  lemma ParentIsDirectory(tree: Tree, key: Path, p: Path)
    requires !HasBadParent(tree, key) && p in tree && p < key && p != []
    ensures tree[p] == Directory
  {
    assert key[..|p|] == p;
  }

  lemma NothingBelowNew(tree: Tree, es: seq<Entry>, e: Entry)
    requires IsTreeOf(tree, es) && e.key !in tree && e.key != []
    ensures !Above(es, e.key)
  {
    assert !Holds(es, e.key);
  }

  // ----- a phase -----

  predicate Ranked(done: seq<Entry>, es: seq<Entry>) {
    && (forall d, e | d in done && e in es && e.kind.Directory? :: |d.key| <= |e.key|)
    && (forall i, j | 0 <= i < j < |es| && es[j].kind.Directory? :: |es[i].key| <= |es[j].key|)
  }

  function SizeOf(e: Entry): nat {
    if e.kind.Regular? then e.kind.size else 0
  }

  function TotalSize(es: seq<Entry>): nat {
    if es == [] then 0 else TotalSize(es[..|es| - 1]) + SizeOf(es[|es| - 1])
  }

  lemma {:induction false} TotalGrows(es: seq<Entry>, k: nat)
    requires k <= |es|
    ensures TotalSize(es[..k]) <= TotalSize(es)
    ensures k < |es| ==> TotalSize(es[..k + 1]) == TotalSize(es[..k]) + SizeOf(es[k])
    decreases |es|
  {
    if k == |es| {
      assert es[..k] == es;
    } else {
      assert es[..|es| - 1][..k] == es[..k];
      assert es[..k + 1][..k] == es[..k];
      TotalGrows(es[..|es| - 1], k);
    }
  }

  predicate NoEscape(es: seq<Entry>, escapes: set<Path>) {
    forall e | e in es && e.kind.Link? :: e.key !in escapes
  }

  /**
   One phase, on top of what the phases before it published. It completes exactly when no leaf
   comes to stand above another entry, the sizes fit and no link resolves outside.
   */
  method PublishPhase(tree: Tree, total: nat, ghost done: seq<Entry>, es: seq<Entry>, escapes: set<Path>)
    returns (r: Result<(Tree, nat), PublishError>)
    requires IsTreeOf(tree, done) && NoLeafAbove(done) && DistinctKeys(done + es) && Ranked(done, es)
    requires total <= MAX_MEMBER_BYTES
    ensures r.Ok? <==>
      NoLeafAbove(done + es) && total + TotalSize(es) <= MAX_MEMBER_BYTES && NoEscape(es, escapes)
    ensures r.Ok? ==> IsTreeOf(r.value.0, done + es) && r.value.1 == total + TotalSize(es)
  {
    hide IsTreeOf, NoLeafAbove, DistinctKeys, HasBadParent, TotalSize;
    var current, sum := tree, total;
    assert done + es[..0] == done;
    NoSizeYet(es);
    for k := 0 to |es|
      invariant NoLeafAbove(done + es[..k]) && IsTreeOf(current, done + es[..k])
      invariant sum == total + TotalSize(es[..k]) <= MAX_MEMBER_BYTES
      invariant NoEscape(es[..k], escapes)
    {
      var e := es[k];
      PhaseStep(done, es, k);
      TotalGrows(es, k);
      TotalGrows(es, k + 1);
      OneMore(current, done + es[..k], e);
      var step := PublishOne(current, e);
      if step.Err? {
        return Err(step.error);
      }
      if e.kind.Link? && e.key in escapes {
        return Err(LinkEscapes(e.key));
      }
      TreeGrows(current, step.value, done + es[..k], e);
      current := step.value;
      sum := sum + SizeOf(e);
      if sum > MAX_MEMBER_BYTES {
        return Err(TooLarge);
      }
    }
    assert es[..|es|] == es;
    r := Ok((current, sum));
  }

  lemma NoSizeYet(es: seq<Entry>)
    ensures TotalSize(es[..0]) == 0
  {
  }

  lemma PhaseStep(done: seq<Entry>, es: seq<Entry>, k: nat)
    requires k < |es| && DistinctKeys(done + es) && Ranked(done, es)
    ensures done + es[..k + 1] == done + es[..k] + [es[k]]
    ensures DistinctKeys(done + es[..k] + [es[k]]) && es[k].key != []
    ensures NoLeafAbove(done + es) ==> NoLeafAbove(done + es[..k] + [es[k]])
    ensures es[k].kind.Directory? ==> forall d | d in done + es[..k] :: |d.key| <= |es[k].key|
    ensures forall escapes :: NoEscape(es, escapes) ==> es[k].kind.Link? ==> es[k].key !in escapes
  {
    var all, part := done + es, done + es[..k] + [es[k]];
    assert forall i | 0 <= i < |part| :: part[i] == all[i];
    assert forall e | e in part :: e in all;
    assert es[k] in part && es[k] in es;
  }

  // ----- sorting and splitting the members -----

  function Text(key: Path): string {
    if key == [] then "" else Join(key)
  }

  predicate Before(a: Entry, b: Entry) {
    |a.key| < |b.key| || (|a.key| == |b.key| && !StrLess(Text(b.key), Text(a.key)))
  }

  /** The sort key of directories: depth, then the path text. */
  function InsertByDepth(e: Entry, es: seq<Entry>): seq<Entry> {
    if es == [] || Before(e, es[0]) then [e] + es else [es[0]] + InsertByDepth(e, es[1..])
  }

  function SortByDepth(es: seq<Entry>): seq<Entry> {
    if es == [] then [] else InsertByDepth(es[0], SortByDepth(es[1..]))
  }

  predicate DepthSorted(es: seq<Entry>) {
    |es| <= 1 || (|es[0].key| <= |es[1].key| && DepthSorted(es[1..]))
  }

  lemma InsertUnfold(e: Entry, es: seq<Entry>)
    ensures InsertByDepth(e, es) ==
      if es == [] || Before(e, es[0]) then [e] + es else [es[0]] + InsertByDepth(e, es[1..])
  {
    hide Before;
  }

  lemma {:induction false} InsertKeeps(e: Entry, es: seq<Entry>)
    requires DepthSorted(es)
    ensures DepthSorted(InsertByDepth(e, es)) && multiset(InsertByDepth(e, es)) == multiset{e} + multiset(es)
    ensures InsertByDepth(e, es)[0] == if es == [] || Before(e, es[0]) then e else es[0]
  {
    hide StrLess, Text;
    InsertUnfold(e, es);
    if es != [] && !Before(e, es[0]) {
      assert |es[0].key| <= |e.key|;
      hide InsertByDepth, Before;
      var tail := InsertByDepth(e, es[1..]);
      InsertKeeps(e, es[1..]);
      assert es == [es[0]] + es[1..] && ([es[0]] + tail)[1..] == tail;
      assert multiset([es[0]] + tail) == multiset{es[0]} + multiset(tail);
    } else {
      assert ([e] + es)[1..] == es;
      hide InsertByDepth;
    }
  }

  lemma {:induction false} SortKeeps(es: seq<Entry>)
    ensures DepthSorted(SortByDepth(es)) && multiset(SortByDepth(es)) == multiset(es)
  {
    if es != [] {
      SortKeeps(es[1..]);
      InsertKeeps(es[0], SortByDepth(es[1..]));
      assert es == [es[0]] + es[1..];
    }
  }

  lemma {:induction false} DepthSortedAt(es: seq<Entry>, i: nat, j: nat)
    requires DepthSorted(es) && i < j < |es|
    ensures |es[i].key| <= |es[j].key|
  {
    if i > 0 {
      DepthSortedAt(es[1..], i - 1, j - 1);
    } else if j > 1 {
      DepthSortedAt(es[1..], 0, j - 1);
    }
  }

  /** The sort key of links: the path text. */
  function InsertByText(e: Entry, es: seq<Entry>): seq<Entry> {
    if es == [] || !StrLess(Text(es[0].key), Text(e.key)) then [e] + es else [es[0]] + InsertByText(e, es[1..])
  }

  function SortByText(es: seq<Entry>): seq<Entry> {
    if es == [] then [] else InsertByText(es[0], SortByText(es[1..]))
  }

  lemma {:induction false} InsertByTextKeeps(e: Entry, es: seq<Entry>)
    ensures multiset(InsertByText(e, es)) == multiset{e} + multiset(es)
  {
    hide StrLess, Text;
    if es != [] && StrLess(Text(es[0].key), Text(e.key)) {
      InsertByTextKeeps(e, es[1..]);
      assert es == [es[0]] + es[1..];
    }
  }

  lemma {:induction false} SortByTextKeeps(es: seq<Entry>)
    ensures multiset(SortByText(es)) == multiset(es)
  {
    if es != [] {
      SortByTextKeeps(es[1..]);
      InsertByTextKeeps(es[0], SortByText(es[1..]));
      assert es == [es[0]] + es[1..];
    }
  }

  // ----- lists with the same entries -----

  ghost predicate SameEntries(a: seq<Entry>, b: seq<Entry>) {
    multiset(a) == multiset(b)
  }

  lemma SameMembers(a: seq<Entry>, b: seq<Entry>)
    requires SameEntries(a, b)
    ensures |a| == |b| && forall e :: e in a <==> e in b
  {
    assert |multiset(a)| == |a| && |multiset(b)| == |b|;
    forall e ensures e in a <==> e in b {
      assert e in a <==> e in multiset(a);
      assert e in b <==> e in multiset(b);
    }
  }

  ghost function KeySet(es: seq<Entry>): set<Path> {
    set e | e in es :: e.key
  }

  lemma DistinctStep(es: seq<Entry>)
    requires es != []
    ensures
      var n := |es| - 1;
      && KeySet(es) == KeySet(es[..n]) + {es[n].key}
      && (KeysApart(es) <==> KeysApart(es[..n]) && es[n].key !in KeySet(es[..n]))
  {
    var n := |es| - 1;
    var front := es[..n];
    assert es == front + [es[n]];
    assert forall i | 0 <= i < n :: front[i] == es[i];
    if es[n].key in KeySet(front) {
      var e :| e in front && e.key == es[n].key;
      var i :| 0 <= i < n && front[i] == e;
      assert es[i].key == es[n].key;
    } else {
      forall i | 0 <= i < n ensures es[i].key != es[n].key {
        assert front[i] in front && front[i].key in KeySet(front);
      }
    }
  }

  lemma {:induction false} KeysCounted(es: seq<Entry>)
    ensures |KeySet(es)| <= |es| && (|KeySet(es)| == |es| <==> KeysApart(es))
  {
    if es != [] {
      KeysCounted(es[..|es| - 1]);
      DistinctStep(es);
      hide KeysApart, KeySet;
    }
  }

  lemma {:induction false} TotalWithout(b: seq<Entry>, k: nat)
    requires k < |b|
    ensures TotalSize(b) == TotalSize(b[..k] + b[k + 1..]) + SizeOf(b[k])
    decreases |b|
  {
    hide SizeOf;
    var n := |b| - 1;
    if k == n {
      assert b[..k] + b[k + 1..] == b[..n];
    } else {
      var c := b[..n];
      TotalWithout(c, k);
      var rest := b[..k] + b[k + 1..];
      assert rest[..|rest| - 1] == c[..k] + c[k + 1..] && rest[|rest| - 1] == b[n];
    }
  }

  lemma WithoutOne(b: seq<Entry>, k: nat)
    requires k < |b|
    ensures multiset(b[..k] + b[k + 1..]) == multiset(b) - multiset{b[k]}
  {
    assert b == b[..k] + [b[k]] + b[k + 1..];
  }

  lemma {:induction false} SameTotal(a: seq<Entry>, b: seq<Entry>)
    requires SameEntries(a, b)
    ensures TotalSize(a) == TotalSize(b)
    decreases |a|
  {
    SameMembers(a, b);
    if a != [] {
      var n := |a| - 1;
      assert a[n] in b;
      var k :| 0 <= k < |b| && b[k] == a[n];
      WithoutOne(b, k);
      WithoutOne(a, n);
      assert a[..n] + a[n + 1..] == a[..n];
      hide TotalSize;
      SameTotal(a[..n], b[..k] + b[k + 1..]);
      TotalWithout(b, k);
      TotalWithout(a, n);
    }
  }

  // What depends on membership alone.

  ghost predicate Within(a: seq<Entry>, b: seq<Entry>) {
    forall e | e in a :: e in b
  }

  lemma WithinHolds(a: seq<Entry>, b: seq<Entry>, p: Path)
    requires Within(a, b)
    ensures Holds(a, p) ==> Holds(b, p)
    ensures Above(a, p) ==> Above(b, p)
  {
  }

  lemma MembersDecideTree(a: seq<Entry>, b: seq<Entry>, tree: Tree)
    requires Within(a, b) && Within(b, a) && IsTreeOf(tree, a)
    ensures IsTreeOf(tree, b)
  {
    hide Holds, Above;
    forall p ensures (Holds(a, p) <==> Holds(b, p)) && (Above(a, p) <==> Above(b, p)) {
      WithinHolds(a, b, p);
      WithinHolds(b, a, p);
    }
    forall e | e in b ensures e.key in tree && tree[e.key] == e.kind {
      assert e in a;
    }
    hide Within;
  }

  lemma MembersDecideLeaves(a: seq<Entry>, b: seq<Entry>)
    requires Within(b, a) && NoLeafAbove(a)
    ensures NoLeafAbove(b)
  {
  }

  lemma MembersDecideEscape(a: seq<Entry>, b: seq<Entry>, escapes: set<Path>)
    requires Within(b, a) && NoEscape(a, escapes)
    ensures NoEscape(b, escapes)
  {
  }

  lemma MembersDecideKeys(a: seq<Entry>, b: seq<Entry>)
    requires SameEntries(a, b) && DistinctKeys(a)
    ensures DistinctKeys(b)
  {
    SameMembers(a, b);
    KeysCounted(a);
    KeysCounted(b);
    assert KeySet(a) == KeySet(b);
    assert KeysApart(a);
  }

  /** Everything the publication depends on is the same for lists with the same entries. */
  lemma OrderIsIrrelevant(a: seq<Entry>, b: seq<Entry>, escapes: set<Path>, tree: Tree)
    requires SameEntries(a, b) && SameEntries(b, a)
    ensures DistinctKeys(a) <==> DistinctKeys(b)
    ensures NoLeafAbove(a) <==> NoLeafAbove(b)
    ensures TotalSize(a) == TotalSize(b) && (NoEscape(a, escapes) <==> NoEscape(b, escapes))
    ensures IsTreeOf(tree, a) <==> IsTreeOf(tree, b)
  {
    SameMembers(a, b);
    assert Within(a, b) && Within(b, a);
    hide TotalSize, DistinctKeys, NoLeafAbove, IsTreeOf, NoEscape, Within, SameEntries;
    SameTotal(a, b);
    if DistinctKeys(a) {
      MembersDecideKeys(a, b);
    }
    if DistinctKeys(b) {
      MembersDecideKeys(b, a);
    }
    if NoLeafAbove(a) {
      MembersDecideLeaves(a, b);
    }
    if NoLeafAbove(b) {
      MembersDecideLeaves(b, a);
    }
    if NoEscape(a, escapes) {
      MembersDecideEscape(a, b, escapes);
    }
    if NoEscape(b, escapes) {
      MembersDecideEscape(b, a, escapes);
    }
    if IsTreeOf(tree, a) {
      MembersDecideTree(a, b, tree);
    }
    if IsTreeOf(tree, b) {
      MembersDecideTree(b, a, tree);
    }
  }

  // ----- the whole extraction -----

  datatype ExtractError = EmptyKey | DuplicateMember(key: Path) | Publishing(error: PublishError)

  function OfKind(es: seq<Entry>, kind: char): seq<Entry> {
    if es == [] then []
    else
      var front, last := OfKind(es[..|es| - 1], kind), es[|es| - 1];
      if KindCode(last) == kind then front + [last] else front
  }

  function KindCode(e: Entry): char {
    match e.kind
    case Directory => 'd'
    case Regular(_) => 'r'
    case Link(_) => 'l'
  }

  lemma {:induction false} KindsPartition(es: seq<Entry>)
    ensures multiset(OfKind(es, 'd')) + multiset(OfKind(es, 'r')) + multiset(OfKind(es, 'l')) == multiset(es)
    ensures forall e | e in OfKind(es, 'd') :: e.kind.Directory?
    ensures forall e | e in OfKind(es, 'r') :: e.kind.Regular?
    ensures forall e | e in OfKind(es, 'l') :: e.kind.Link?
  {
    if es != [] {
      KindsPartition(es[..|es| - 1]);
      assert es == es[..|es| - 1] + [es[|es| - 1]];
    }
  }

  lemma KindStep(es: seq<Entry>, k: nat, kind: char)
    requires k < |es|
    ensures OfKind(es[..k + 1], kind) == OfKind(es[..k], kind) + if KindCode(es[k]) == kind then [es[k]] else []
  {
    assert es[..k + 1][..k] == es[..k];
  }

  lemma NoneOfKind(kind: char)
    ensures OfKind([], kind) == []
  {
  }

  method SplitMembers(es: seq<Entry>) returns (dirs: seq<Entry>, files: seq<Entry>, links: seq<Entry>, repeat: Option<Path>)
    requires forall e | e in es :: e.key != []
    ensures repeat.None? <==> DistinctKeys(es)
    ensures repeat.None? ==> dirs == OfKind(es, 'd') && files == OfKind(es, 'r') && links == OfKind(es, 'l')
  {
    hide OfKind;
    dirs, files, links := [], [], [];
    var seen: set<Path> := {};
    NoneOfKind('d');
    NoneOfKind('r');
    NoneOfKind('l');
    assert es[..0] == [];
    for k := 0 to |es|
      invariant dirs == OfKind(es[..k], 'd') && files == OfKind(es[..k], 'r') && links == OfKind(es[..k], 'l')
      invariant forall p :: p in seen <==> exists i :: 0 <= i < k && es[i].key == p
      invariant forall i, j | 0 <= i < j < k :: es[i].key != es[j].key
    {
      var e := es[k];
      KindStep(es, k, 'd');
      KindStep(es, k, 'r');
      KindStep(es, k, 'l');
      if e.key in seen {
        return dirs, files, links, Some(e.key);
      }
      seen := seen + {e.key};
      match e.kind {
        case Directory => dirs := dirs + [e];
        case Regular(_) => files := files + [e];
        case Link(_) => links := links + [e];
      }
    }
    assert es[..|es|] == es;
    repeat := None;
  }

  ghost predicate LinkParent(es: seq<Entry>) {
    exists l, e | l in es && e in es && l.kind.Link? :: l.key < e.key
  }

  lemma NotUnderLink(key: Path, link: Path, links: set<Path>)
    requires !UnderLink(key, links) && link in links && link != []
    ensures !(link < key)
  {
    if |link| < |key| {
      var parent := key[..|link|];
      assert parent !in links;
      assert parent != link;
      var i :| 0 <= i < |link| && parent[i] != link[i];
      assert key[i] != link[i];
    }
  }

  /** `reject_symlink_parents` on every member. */
  method RejectLinkParents(es: seq<Entry>, links: set<Path>) returns (r: Option<PublishError>)
    requires forall p :: p in links <==> exists l :: l in es && l.kind.Link? && l.key == p
    requires forall e | e in es :: e.key != []
    ensures r.Some? <==> LinkParent(es)
  {
    for i := 0 to |es|
      invariant forall j | 0 <= j < i :: !UnderLink(es[j].key, links)
    {
      for k := 1 to |es[i].key|
        invariant forall m | 1 <= m < k :: es[i].key[..m] !in links
      {
        if es[i].key[..k] in links {
          var l :| l in es && l.kind.Link? && l.key == es[i].key[..k];
          assert l.key < es[i].key && es[i] in es;
          return Some(LinkAsParent(es[i].key));
        }
      }
    }
    forall l, e | l in es && e in es && l.kind.Link? ensures !(l.key < e.key) {
      var j :| 0 <= j < |es| && es[j] == e;
      assert !UnderLink(es[j].key, links) && l.key in links;
      NotUnderLink(e.key, l.key, links);
    }
    r := None;
  }

  lemma LinkParentIsLeaf(es: seq<Entry>)
    requires LinkParent(es)
    ensures !NoLeafAbove(es)
  {
    var l, e :| l in es && e in es && l.kind.Link? && l.key < e.key;
  }

  lemma {:induction false} KindMembers(es: seq<Entry>, kind: char, e: Entry)
    ensures e in OfKind(es, kind) <==> e in es && KindCode(e) == kind
  {
    if es != [] {
      KindMembers(es[..|es| - 1], kind, e);
      assert es == es[..|es| - 1] + [es[|es| - 1]];
    }
  }

  lemma EmptyTree()
    ensures IsTreeOf(map[], []) && NoLeafAbove([])
  {
  }

  lemma LeafAboveInPart(part: seq<Entry>, rest: seq<Entry>)
    ensures NoLeafAbove(part + rest) ==> NoLeafAbove(part)
    ensures DistinctKeys(part + rest) ==> DistinctKeys(part)
  {
    var all := part + rest;
    assert forall e | e in part :: e in all;
    assert forall i | 0 <= i < |part| :: all[i] == part[i];
  }

  /** The three phases in a row are the members, and no directory comes behind a deeper one. */
  lemma PhasesFit(es: seq<Entry>, dirs: seq<Entry>, files: seq<Entry>, links: seq<Entry>)
    requires DistinctKeys(es) && DepthSorted(dirs)
    requires multiset(dirs) + multiset(files) + multiset(links) == multiset(es)
    requires (forall e | e in files :: !e.kind.Directory?) && forall e | e in links :: !e.kind.Directory?
    ensures
      var all := dirs + files + links;
      && SameEntries(all, es) && DistinctKeys(all) && DistinctKeys(dirs + files) && DistinctKeys(dirs)
      && (NoLeafAbove(all) ==> NoLeafAbove(dirs + files)) && (NoLeafAbove(dirs + files) ==> NoLeafAbove(dirs))
      && Ranked([], dirs) && Ranked(dirs, files) && Ranked(dirs + files, links)
  {
    RankedPhases(dirs, files, links);
    var all := dirs + files + links;
    OrderIsIrrelevant(all, es, {}, map[]);
    hide NoLeafAbove, DistinctKeys, DepthSorted, Ranked;
    LeafAboveInPart(dirs + files, links);
    LeafAboveInPart(dirs, files);
  }

  lemma RankedPhases(dirs: seq<Entry>, files: seq<Entry>, links: seq<Entry>)
    requires DepthSorted(dirs)
    requires (forall e | e in files :: !e.kind.Directory?) && forall e | e in links :: !e.kind.Directory?
    ensures Ranked([], dirs) && Ranked(dirs, files) && Ranked(dirs + files, links)
  {
    forall i, j | 0 <= i < j < |dirs| ensures |dirs[i].key| <= |dirs[j].key| {
      DepthSortedAt(dirs, i, j);
    }
    assert forall j | 0 <= j < |files| :: files[j] in files;
    assert forall j | 0 <= j < |links| :: links[j] in links;
  }

  /** The total adds up entry by entry: a file counts its size, a directory or a link nothing. */
  lemma {:induction false} TotalConcat(a: seq<Entry>, b: seq<Entry>)
    ensures TotalSize(a + b) == TotalSize(a) + TotalSize(b)
    ensures |a| == 1 ==> TotalSize(a) == match a[0].kind case Regular(size) => size case _ => 0
  {
    if |a| == 1 {
      assert a[..0] == [];
    }
    if b == [] {
      assert a + b == a;
    } else {
      var n := |b| - 1;
      TotalConcat(a, b[..n]);
      assert (a + b)[..|a + b| - 1] == a + b[..n];
    }
  }

  lemma PhaseTotals(dirs: seq<Entry>, files: seq<Entry>, links: seq<Entry>, escapes: set<Path>)
    ensures TotalSize(dirs + files + links) == TotalSize(dirs) + TotalSize(files) + TotalSize(links)
    ensures NoEscape(dirs + files + links, escapes) <==>
      NoEscape(dirs, escapes) && NoEscape(files, escapes) && NoEscape(links, escapes)
  {
    TotalConcat(dirs, files);
    TotalConcat(dirs + files, links);
    hide TotalSize;
    var all := dirs + files + links;
    assert forall e :: e in all <==> e in dirs || e in files || e in links;
  }

  /** Directories, then files, then links, each phase on the tree of the ones before it. */
  method PublishPhases(es: seq<Entry>, dirs: seq<Entry>, files: seq<Entry>, links: seq<Entry>, escapes: set<Path>)
    returns (r: Result<Tree, PublishError>)
    requires DistinctKeys(es) && DepthSorted(dirs)
    requires multiset(dirs) + multiset(files) + multiset(links) == multiset(es)
    requires (forall e | e in files :: !e.kind.Directory?) && forall e | e in links :: !e.kind.Directory?
    ensures r.Ok? <==> NoLeafAbove(es) && TotalSize(es) <= MAX_MEMBER_BYTES && NoEscape(es, escapes)
    ensures r.Ok? ==> IsTreeOf(r.value, es)
  {
    hide IsTreeOf, NoLeafAbove, DistinctKeys, TotalSize, NoEscape, DepthSorted, Ranked;
    ghost var all := dirs + files + links;
    PhasesFit(es, dirs, files, links);
    EmptyTree();
    OrderIsIrrelevant(all, es, escapes, map[]);
    PhaseTotals(dirs, files, links, escapes);
    assert [] + dirs == dirs;
    var first := PublishPhase(map[], 0, [], dirs, escapes);
    if first.Err? {
      return Err(first.error);
    }
    var second := PublishPhase(first.value.0, first.value.1, dirs, files, escapes);
    if second.Err? {
      return Err(second.error);
    }
    var third := PublishPhase(second.value.0, second.value.1, dirs + files, links, escapes);
    if third.Err? {
      return Err(third.error);
    }
    r := Ok(third.value.0);
    OrderIsIrrelevant(all, es, escapes, third.value.0);
  }

  lemma KindsHaveNoDirectory(es: seq<Entry>, files: seq<Entry>)
    requires multiset(files) == multiset(es) && forall e | e in es :: !e.kind.Directory?
    ensures forall e | e in files :: !e.kind.Directory?
  {
    assert SameEntries(files, es);
    SameMembers(files, es);
  }

  /**
   The extraction completes exactly when the keys are distinct, no file or link stands above another
   member, the sizes fit and every link resolves inside; the tree is then that of the members.
   */
  method Extract(es: seq<Entry>, escapes: set<Path>) returns (r: Result<Tree, ExtractError>)
    requires forall e | e in es :: e.key != []
    ensures r.Ok? <==>
      && DistinctKeys(es) && NoLeafAbove(es)
      && TotalSize(es) <= 34_359_738_368 && NoEscape(es, escapes)
    ensures r.Ok? ==> IsTreeOf(r.value, es)
  {
    hide IsTreeOf, NoLeafAbove, DistinctKeys, TotalSize, NoEscape, OfKind, LinkParent, SortByDepth, SortByText, DepthSorted;
    var dirs, files, links, repeat := SplitMembers(es);
    if repeat.Some? {
      return Err(DuplicateMember(repeat.value));
    }
    KindsPartition(es);
    forall e ensures e in links <==> e in es && e.kind.Link? {
      KindMembers(es, 'l', e);
    }
    var names := set l | l in links :: l.key;
    var linked := RejectLinkParents(es, names);
    if linked.Some? {
      LinkParentIsLeaf(es);
      return Err(Publishing(linked.value));
    }
    SortKeeps(dirs);
    SortByTextKeeps(links);
    KindsHaveNoDirectory(links, SortByText(links));
    var published := PublishPhases(es, SortByDepth(dirs), files, SortByText(links), escapes);
    if published.Err? {
      return Err(Publishing(published.error));
    }
    r := Ok(published.value);
  }
}
