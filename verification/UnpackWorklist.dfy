/**
 Unpacking nested deliveries: a worklist of archives with their nesting depth. It terminates on
 every finite nesting, expands no archive twice and ends with exactly the reachable archives, or
 stops exactly when some archive at the depth limit still holds another one.
 */
module UnpackWorklist {
  import opened Wrappers
  import opened Ordering
  import opened Affixes

  const MAX_ZIP_DEPTH: nat := 4

  type Archive = string

  datatype Outcome = Unpacked(order: seq<Archive>) | TooDeep(archive: Archive) | Failed(archive: Archive)

  /** Whether extracting an archive fails, and the archives it leaves; only ZIPs are searched. */
  datatype World = World(isZip: Archive -> bool, contents: Archive -> seq<Archive>, fails: Archive -> bool) {
    function Nested(a: Archive): seq<Archive> {
      if isZip(a) then contents(a) else []
    }
  }

  // ----- what is queued -----

  const ZIP_SUFFIX: string := ".zip"
  const TAR_SUFFIXES: seq<string> := [
    ".tar.gz", ".tar.bz2", ".tar.xz", ".tar.zst", ".tar.lz4", ".tar.md5", ".tgz", ".tbz", ".tbz2", ".txz", ".tar"]
  const PART_SUFFIX: string := ".part"

  /** `archive_kind` of a lower-case name: only names of some kind are ever queued. */
  predicate HasKind(name: string) {
    EndsWith(name, ZIP_SUFFIX) || exists i | 0 <= i < |TAR_SUFFIXES| :: EndsWith(name, TAR_SUFFIXES[i])
  }

  /** A partial download is no archive by name, so the loop's own test for one never skips anything. */
  lemma PartIsNeverQueued(name: string)
    requires EndsWith(name, PART_SUFFIX)
    ensures !HasKind(name)
  {
    var n := |name| - 2;
    assert name[n] == PART_SUFFIX[3] == 'r';
    forall i | 0 <= i < |TAR_SUFFIXES| ensures !EndsWith(name, TAR_SUFFIXES[i]) {
      var suffix := TAR_SUFFIXES[i];
      assert |suffix| >= 4 && suffix[|suffix| - 2] != 'r';
      assert |suffix| <= |name| ==> name[|name| - |suffix|..][|suffix| - 2] == name[n];
    }
    assert |name| >= 4 ==> name[|name| - 4..][2] == name[n];
  }

  // ----- reachability by levels -----

  /** Archives found within `k` steps of nesting. */
  ghost predicate Within(w: World, roots: seq<Archive>, k: nat, a: Archive) {
    || a in roots
    || (k > 0 && (|| Within(w, roots, k - 1, a)
                  || exists b | Within(w, roots, k - 1, b) :: w.isZip(b) && a in w.contents(b)))
  }

  ghost predicate Reachable(w: World, roots: seq<Archive>, a: Archive) {
    exists k :: Within(w, roots, k, a)
  }

  /** An archive first found at the limit holds another archive. */
  ghost predicate DeepAt(w: World, roots: seq<Archive>, a: Archive) {
    Within(w, roots, 4, a) && !Within(w, roots, 3, a) && w.isZip(a) && w.contents(a) != []
  }

  lemma {:induction false} WithinGrows(w: World, roots: seq<Archive>, j: nat, k: nat, a: Archive)
    requires j <= k && Within(w, roots, j, a)
    ensures Within(w, roots, k, a)
    decreases k
  {
    if j < k {
      WithinGrows(w, roots, j, k - 1, a);
    }
  }

  // ----- the measure -----

  type Queue = seq<(Archive, nat)>

  function CountAt(queue: Queue, d: nat): nat {
    if queue == [] then 0 else CountAt(queue[1..], d) + if queue[0].1 == d then 1 else 0
  }

  lemma {:induction false} CountConcat(a: Queue, b: Queue, d: nat)
    ensures CountAt(a + b, d) == CountAt(a, d) + CountAt(b, d)
  {
    if a == [] {
      assert a + b == b;
    } else {
      assert (a + b)[1..] == a[1..] + b;
      CountConcat(a[1..], b, d);
    }
  }

  function AtDepth(found: seq<Archive>, d: nat): Queue {
    seq(|found|, i requires 0 <= i < |found| => (found[i], d))
  }

  lemma {:induction false} CountAtDepth(found: seq<Archive>, d: nat, e: nat)
    requires d != e
    ensures CountAt(AtDepth(found, d), e) == 0
  {
    if found != [] {
      assert AtDepth(found, d)[1..] == AtDepth(found[1..], d);
      CountAtDepth(found[1..], d, e);
    }
  }

  // ----- what the loop keeps -----

  ghost predicate Queued(queue: Queue, a: Archive, d: nat) {
    exists i :: 0 <= i < |queue| && queue[i] == (a, d)
  }

  /** Handled at a depth no greater, or waiting at this one. */
  ghost predicate Covered(queue: Queue, level: map<Archive, nat>, a: Archive, d: nat) {
    (a in level && level[a] <= d) || Queued(queue, a, d)
  }

  /** Depths in the queue rise, by one at most, and stay in the limit. */
  ghost predicate Rising(queue: Queue) {
    && (forall i, j | 0 <= i < j < |queue| :: queue[i].1 <= queue[j].1 <= queue[0].1 + 1)
    && (forall i | 0 <= i < |queue| :: queue[i].1 <= MAX_ZIP_DEPTH)
  }

  /** Every depth noted is one at which the archive is found. */
  ghost predicate Sound(w: World, roots: seq<Archive>, queue: Queue, level: map<Archive, nat>) {
    && (forall i | 0 <= i < |queue| :: Within(w, roots, queue[i].1, queue[i].0))
    && (forall a | a in level :: level[a] <= MAX_ZIP_DEPTH && Within(w, roots, level[a], a))
    && (forall i, a | 0 <= i < |queue| && a in level :: level[a] <= queue[i].1)
  }

  /** Roots and the contents of handled archives are handled or waiting. */
  ghost predicate Closed(w: World, roots: seq<Archive>, queue: Queue, level: map<Archive, nat>) {
    && (forall a | a in roots :: Covered(queue, level, a, 0))
    && (forall b, a | b in level && a in w.Nested(b) :: Covered(queue, level, a, level[b] + 1))
  }

  /** What is found in fewer steps than the queue's first depth was handled already. */
  lemma {:induction false} ShallowAreHandled(
      w: World, roots: seq<Archive>, queue: Queue, level: map<Archive, nat>, d: nat, k: nat, a: Archive)
    requires Closed(w, roots, queue, level) && Within(w, roots, k, a) && k < d
    requires forall i | 0 <= i < |queue| :: queue[i].1 >= d
    ensures a in level && level[a] <= k
    decreases k
  {
    if a in roots {
      assert Covered(queue, level, a, 0);
    } else if Within(w, roots, k - 1, a) {
      ShallowAreHandled(w, roots, queue, level, d, k - 1, a);
    } else {
      var b :| Within(w, roots, k - 1, b) && w.isZip(b) && a in w.contents(b);
      ShallowAreHandled(w, roots, queue, level, d, k - 1, b);
      assert a in w.Nested(b);
      assert Covered(queue, level, a, level[b] + 1);
    }
  }

  /** Handled archives at the limit hold nothing. */
  ghost predicate NoneDeep(w: World, level: map<Archive, nat>) {
    forall a | a in level && level[a] >= MAX_ZIP_DEPTH :: w.Nested(a) == []
  }

  ghost predicate Keeps(w: World, roots: seq<Archive>, queue: Queue, level: map<Archive, nat>) {
    Rising(queue) && Sound(w, roots, queue, level) && Closed(w, roots, queue, level) && NoneDeep(w, level)
  }

  lemma Start(w: World, roots: seq<Archive>)
    ensures Keeps(w, roots, AtDepth(roots, 0), map[])
  {
    var queue := AtDepth(roots, 0);
    forall a | a in roots ensures Covered(queue, map[], a, 0) {
      var i :| 0 <= i < |roots| && roots[i] == a;
      assert queue[i] == (a, 0);
    }
  }

  lemma CoveredAfterPop(queue: Queue, level: map<Archive, nat>, a: Archive, d: nat)
    requires queue != [] && Covered(queue, level, a, d)
    requires queue[0].0 in level && level[queue[0].0] <= queue[0].1
    ensures Covered(queue[1..], level, a, d)
  {
    if i :| 0 <= i < |queue| && queue[i] == (a, d) {
      assert i > 0 ==> queue[1..][i - 1] == (a, d);
    }
  }

  /** Dropping an entry already handled. */
  lemma Skips(w: World, roots: seq<Archive>, queue: Queue, level: map<Archive, nat>)
    requires Keeps(w, roots, queue, level) && queue != [] && queue[0].0 in level
    ensures Keeps(w, roots, queue[1..], level)
  {
    var rest := queue[1..];
    assert forall i | 0 <= i < |rest| :: rest[i] == queue[i + 1];
    assert level[queue[0].0] <= queue[0].1;
    hide Covered, Within;
    forall a | a in roots ensures Covered(rest, level, a, 0) {
      CoveredAfterPop(queue, level, a, 0);
    }
    forall b, a | b in level && a in w.Nested(b) ensures Covered(rest, level, a, level[b] + 1) {
      CoveredAfterPop(queue, level, a, level[b] + 1);
    }
  }

  lemma CoveredMore(queue: Queue, more: Queue, level: map<Archive, nat>, archive: Archive, depth: nat, a: Archive, d: nat)
    requires Covered(queue, level, a, d) && archive !in level
    ensures Covered(queue + more, level[archive := depth], a, d)
  {
    if i :| 0 <= i < |queue| && queue[i] == (a, d) {
      assert (queue + more)[i] == (a, d);
    }
  }

  lemma CoveredByNew(queue: Queue, found: seq<Archive>, level: map<Archive, nat>, a: Archive, d: nat)
    requires a in found
    ensures Covered(queue + AtDepth(found, d), level, a, d)
  {
    var i :| 0 <= i < |found| && found[i] == a;
    assert (queue + AtDepth(found, d))[|queue| + i] == (a, d);
  }

  lemma RisingMore(queue: Queue, found: seq<Archive>)
    requires Rising(queue) && queue != [] && (found != [] ==> queue[0].1 < MAX_ZIP_DEPTH)
    ensures Rising(queue[1..] + AtDepth(found, queue[0].1 + 1))
  {
    var rest, depth := queue[1..], queue[0].1;
    var more := rest + AtDepth(found, depth + 1);
    forall i | 0 <= i < |more|
      ensures depth <= more[i].1 <= depth + 1 && more[i].1 <= MAX_ZIP_DEPTH
      ensures more[i].1 == if i < |rest| then queue[i + 1].1 else depth + 1
    {
      if i < |rest| {
        assert more[i] == queue[i + 1];
      }
    }
    hide AtDepth;
    forall i, j | 0 <= i < j < |more| ensures more[i].1 <= more[j].1 <= more[0].1 + 1 {
      assert j < |rest| ==> queue[i + 1].1 <= queue[j + 1].1;
    }
  }

  lemma SoundMore(w: World, roots: seq<Archive>, queue: Queue, level: map<Archive, nat>)
    requires Rising(queue) && Sound(w, roots, queue, level) && queue != []
    ensures
      var (archive, depth) := queue[0];
      Sound(w, roots, queue[1..] + AtDepth(w.Nested(archive), depth + 1), level[archive := depth])
  {
    var (archive, depth) := queue[0];
    var found := w.Nested(archive);
    var rest, more := queue[1..], queue[1..] + AtDepth(found, depth + 1);
    assert Within(w, roots, depth, archive);
    forall i | 0 <= i < |found| ensures Within(w, roots, depth + 1, found[i]) {
      assert found[i] in w.Nested(archive);
    }
    hide Within;
    forall i | 0 <= i < |more| ensures Within(w, roots, more[i].1, more[i].0) && depth <= more[i].1 {
      if i < |rest| {
        assert more[i] == queue[i + 1];
      } else {
        assert more[i] == (found[i - |rest|], depth + 1);
      }
    }
  }

  lemma CoveredAfter(queue: Queue, level: map<Archive, nat>, found: seq<Archive>, a: Archive, d: nat)
    requires queue != [] && queue[0].0 !in level && Covered(queue, level, a, d)
    ensures
      var (archive, depth) := queue[0];
      Covered(queue[1..] + AtDepth(found, depth + 1), level[archive := depth], a, d)
  {
    hide Covered;
    var (archive, depth) := queue[0];
    var more := AtDepth(found, depth + 1);
    PoppedOrKept(queue, level, a, d);
    if Covered(queue[1..], level, a, d) {
      CoveredMore(queue[1..], more, level, archive, depth, a, d);
    } else {
      HandledNow(queue[1..] + more, level[archive := depth], a, d);
    }
  }

  lemma ClosedMore(w: World, roots: seq<Archive>, queue: Queue, level: map<Archive, nat>)
    requires Closed(w, roots, queue, level) && queue != [] && queue[0].0 !in level
    ensures
      var (archive, depth) := queue[0];
      Closed(w, roots, queue[1..] + AtDepth(w.Nested(archive), depth + 1), level[archive := depth])
  {
    hide Covered, World.Nested, AtDepth;
    var (archive, depth) := queue[0];
    var found := w.Nested(archive);
    var more, after := queue[1..] + AtDepth(found, depth + 1), level[archive := depth];
    forall a | a in roots ensures Covered(more, after, a, 0) {
      CoveredAfter(queue, level, found, a, 0);
    }
    forall b, a | b in after && a in w.Nested(b) ensures Covered(more, after, a, after[b] + 1) {
      if b == archive {
        CoveredByNew(queue[1..], found, after, a, depth + 1);
      } else {
        CoveredAfter(queue, level, found, a, level[b] + 1);
      }
    }
  }

  /** Handling an entry and queueing what its archive holds. */
  lemma Expands(w: World, roots: seq<Archive>, queue: Queue, level: map<Archive, nat>)
    requires Keeps(w, roots, queue, level) && queue != [] && queue[0].0 !in level
    requires w.Nested(queue[0].0) != [] ==> queue[0].1 < MAX_ZIP_DEPTH
    ensures
      var (archive, depth) := queue[0];
      Keeps(w, roots, queue[1..] + AtDepth(w.Nested(archive), depth + 1), level[archive := depth])
  {
    RisingMore(queue, w.Nested(queue[0].0));
    SoundMore(w, roots, queue, level);
    ClosedMore(w, roots, queue, level);
    hide Rising, Sound, Closed, AtDepth;
  }

  lemma PoppedOrKept(queue: Queue, level: map<Archive, nat>, a: Archive, d: nat)
    requires queue != [] && Covered(queue, level, a, d)
    ensures Covered(queue[1..], level, a, d) || queue[0] == (a, d)
  {
    if i :| 0 <= i < |queue| && queue[i] == (a, d) {
      assert i > 0 ==> queue[1..][i - 1] == (a, d);
    }
  }

  lemma HandledNow(queue: Queue, level: map<Archive, nat>, a: Archive, d: nat)
    requires a in level && level[a] == d
    ensures Covered(queue, level, a, d)
  {
  }

  /** An archive first met at the limit is found no earlier. */
  lemma MetAtLimit(w: World, roots: seq<Archive>, queue: Queue, level: map<Archive, nat>)
    requires Keeps(w, roots, queue, level) && queue != [] && queue[0].0 !in level
    requires queue[0].1 >= MAX_ZIP_DEPTH && w.Nested(queue[0].0) != []
    ensures DeepAt(w, roots, queue[0].0)
  {
    var (archive, depth) := queue[0];
    if Within(w, roots, MAX_ZIP_DEPTH - 1, archive) {
      ShallowAreHandled(w, roots, queue, level, MAX_ZIP_DEPTH, MAX_ZIP_DEPTH - 1, archive);
      assert false;
    }
  }

  lemma Finished(w: World, roots: seq<Archive>, level: map<Archive, nat>)
    requires Keeps(w, roots, [], level)
    ensures forall a :: a in level <==> Reachable(w, roots, a)
    ensures forall a :: !DeepAt(w, roots, a)
  {
    forall a, k | Within(w, roots, k, a) ensures a in level && level[a] <= k {
      ShallowAreHandled(w, roots, [], level, k + 1, k, a);
    }
    forall a ensures !DeepAt(w, roots, a) {
      if Within(w, roots, MAX_ZIP_DEPTH, a) && !Within(w, roots, MAX_ZIP_DEPTH - 1, a) {
        if level[a] < MAX_ZIP_DEPTH {
          WithinGrows(w, roots, level[a], MAX_ZIP_DEPTH - 1, a);
          assert false;
        }
      }
    }
    assert forall a | a in level :: Within(w, roots, level[a], a);
  }

  lemma {:induction false} PopCounts(queue: Queue, found: seq<Archive>, d: nat)
    requires queue != [] && d <= queue[0].1
    ensures CountAt(queue[1..] + AtDepth(found, queue[0].1 + 1), d) == CountAt(queue, d) - if d == queue[0].1 then 1 else 0
  {
    CountConcat(queue[1..], AtDepth(found, queue[0].1 + 1), d);
    CountAtDepth(found, queue[0].1 + 1, d);
  }

  // ----- the order -----

  /** The contents of the archives, one after the other. */
  function Contents(w: World, order: seq<Archive>): seq<Archive> {
    if order == [] then [] else Contents(w, order[..|order| - 1]) + w.Nested(order[|order| - 1])
  }

  /** No archive is found in fewer steps than one in front of it. */
  ghost predicate NeverShallower(w: World, roots: seq<Archive>, order: seq<Archive>) {
    forall i, j, k: nat | 0 <= i < j < |order| && Within(w, roots, k, order[j]) :: Within(w, roots, k, order[i])
  }

  function Names(queue: Queue): seq<Archive> {
    seq(|queue|, i requires 0 <= i < |queue| => queue[i].0)
  }

  /** The archives taken are those found in front of the queue, each where it was found first. */
  ghost predicate TakenInOrder(
      w: World, roots: seq<Archive>, queue: Queue, level: map<Archive, nat>, order: seq<Archive>, taken: seq<Archive>)
  {
    && roots + Contents(w, order) == taken + Names(queue) && order == Dedupe(taken)
    && (forall a :: a in order <==> a in level) && LevelsRise(level, order)
  }

  ghost predicate LevelsRise(level: map<Archive, nat>, order: seq<Archive>) {
    && (forall a | a in order :: a in level)
    && (forall i, j | 0 <= i < j < |order| :: level[order[i]] <= level[order[j]])
  }

  lemma NamesOfMore(queue: Queue, found: seq<Archive>, d: nat)
    requires queue != []
    ensures Names(queue) == [queue[0].0] + Names(queue[1..])
    ensures Names(queue[1..] + AtDepth(found, d)) == Names(queue[1..]) + found
  {
  }

  lemma TakenFirst(w: World, roots: seq<Archive>)
    ensures TakenInOrder(w, roots, AtDepth(roots, 0), map[], [], [])
  {
    assert Names(AtDepth(roots, 0)) == roots;
  }

  lemma TakenAgain(
      w: World, roots: seq<Archive>, queue: Queue, level: map<Archive, nat>, order: seq<Archive>, taken: seq<Archive>)
    requires TakenInOrder(w, roots, queue, level, order, taken) && queue != [] && queue[0].0 in level
    ensures TakenInOrder(w, roots, queue[1..], level, order, taken + [queue[0].0])
  {
    hide World.Nested, Contents, LevelsRise;
    NamesOfMore(queue, [], 0);
    DedupeMembers(taken);
    DedupeMore(taken, queue[0].0);
    hide Dedupe, Names;
    assert taken + ([queue[0].0] + Names(queue[1..])) == taken + [queue[0].0] + Names(queue[1..]);
  }

  lemma DedupeMore(taken: seq<Archive>, a: Archive)
    ensures Dedupe(taken + [a]) == if a in taken then Dedupe(taken) else Dedupe(taken) + [a]
  {
    var next := taken + [a];
    assert next[..|next| - 1] == taken;
  }

  lemma Shift(
      roots: seq<Archive>, contents: seq<Archive>, found: seq<Archive>, taken: seq<Archive>, a: Archive, rest: seq<Archive>)
    requires roots + contents == taken + ([a] + rest)
    ensures roots + (contents + found) == taken + [a] + (rest + found)
  {
    var all := roots + contents;
    assert roots + (contents + found) == all + found;
    assert all + found == taken + [a] + (rest + found);
  }

  lemma ContentsMore(w: World, order: seq<Archive>, a: Archive)
    ensures Contents(w, order + [a]) == Contents(w, order) + w.Nested(a)
  {
    assert (order + [a])[..|order|] == order;
  }

  lemma RiseMore(level: map<Archive, nat>, order: seq<Archive>, a: Archive, d: nat)
    requires LevelsRise(level, order) && a !in level && forall b | b in level :: level[b] <= d
    ensures LevelsRise(level[a := d], order + [a])
  {
    var after, more := order + [a], level[a := d];
    forall i, j | 0 <= i < j < |after| ensures more[after[i]] <= more[after[j]] {
      assert order[i] in order;
      assert j < |order| ==> order[j] in order && level[order[i]] <= level[order[j]];
    }
  }

  lemma TakenNew(
      w: World, roots: seq<Archive>, queue: Queue, level: map<Archive, nat>, order: seq<Archive>, taken: seq<Archive>)
    requires TakenInOrder(w, roots, queue, level, order, taken) && queue != [] && queue[0].0 !in level
    requires forall a | a in level :: level[a] <= queue[0].1
    ensures
      var (a, d) := queue[0];
      var found := w.Nested(a);
      TakenInOrder(w, roots, queue[1..] + AtDepth(found, d + 1), level[a := d], order + [a], taken + [a])
  {
    hide World.Nested;
    var (a, d) := queue[0];
    DedupeMembers(taken);
    DedupeMore(taken, a);
    RiseMore(level, order, a, d);
    hide Dedupe, LevelsRise;
    MembersMore(level, order, a, d);
    NamesShift(w, roots, queue, order, taken);
    hide Names, Contents, AtDepth;
  }

  lemma MembersMore(level: map<Archive, nat>, order: seq<Archive>, a: Archive, d: nat)
    requires forall b :: b in order <==> b in level
    ensures forall b :: b in order + [a] <==> b in level[a := d]
  {
  }

  lemma NamesShift(w: World, roots: seq<Archive>, queue: Queue, order: seq<Archive>, taken: seq<Archive>)
    requires queue != [] && roots + Contents(w, order) == taken + Names(queue)
    ensures
      var (a, d) := queue[0];
      roots + Contents(w, order + [a]) == taken + [a] + Names(queue[1..] + AtDepth(w.Nested(a), d + 1))
  {
    hide Names, Contents, AtDepth, World.Nested;
    var (a, d) := queue[0];
    var found := w.Nested(a);
    NamesOfMore(queue, found, d + 1);
    ContentsMore(w, order, a);
    Shift(roots, Contents(w, order), found, taken, a, Names(queue[1..]));
  }

  lemma TakenLast(
      w: World, roots: seq<Archive>, level: map<Archive, nat>, order: seq<Archive>, taken: seq<Archive>)
    requires Keeps(w, roots, [], level) && TakenInOrder(w, roots, [], level, order, taken)
    ensures order == Dedupe(roots + Contents(w, order)) && NeverShallower(w, roots, order)
  {
    hide Within;
    assert taken + Names([]) == taken;
    forall i, j, k: nat | 0 <= i < j < |order| && Within(w, roots, k, order[j]) ensures Within(w, roots, k, order[i]) {
      ShallowAreHandled(w, roots, [], level, k + 1, k, order[j]);
      assert order[i] in order;
      WithinGrows(w, roots, level[order[i]], k, order[i]);
    }
  }

  lemma LevelsSoFar(w: World, roots: seq<Archive>, queue: Queue, level: map<Archive, nat>)
    requires Keeps(w, roots, queue, level) && queue != []
    ensures forall a | a in level :: level[a] <= queue[0].1
  {
  }

  /**
   The worklist loop, with the queue counts at each depth as its measure. When it completes, it has
   expanded every reachable archive once and none failed, in the order in which the roots and then the
   contents of the archives before it name it first, and never a shallower one after a deeper one; it
   stops early exactly at an archive whose extraction fails or at one too deep to expand.
   */
  method Unpack(w: World, roots: seq<Archive>) returns (r: Outcome)
    ensures r.Unpacked? ==>
      && Distinct(r.order)
      && (forall a :: a in r.order <==> Reachable(w, roots, a))
      && (forall a :: !DeepAt(w, roots, a))
      && (forall a | Reachable(w, roots, a) :: !w.fails(a))
      && r.order == Dedupe(roots + Contents(w, r.order)) && NeverShallower(w, roots, r.order)
    ensures r.TooDeep? ==> DeepAt(w, roots, r.archive) && !w.fails(r.archive)
    ensures r.Failed? ==> Within(w, roots, 4, r.archive) && w.fails(r.archive)
  {
    hide Keeps, Within, DeepAt, CountAt, Reachable, TakenInOrder, NeverShallower, Contents;
    var queue := AtDepth(roots, 0);
    var processed: set<Archive> := {};
    var order: seq<Archive> := [];
    ghost var level: map<Archive, nat> := map[];
    ghost var taken: seq<Archive> := [];
    Start(w, roots);
    TakenFirst(w, roots);
    while queue != []
      invariant Keeps(w, roots, queue, level)
      invariant processed == level.Keys && Distinct(order) && forall a :: a in order <==> a in processed
      invariant forall a | a in order :: !w.fails(a)
      invariant TakenInOrder(w, roots, queue, level, order, taken)
      decreases CountAt(queue, 0), CountAt(queue, 1), CountAt(queue, 2), CountAt(queue, 3), CountAt(queue, 4)
    {
      var (archive, depth) := queue[0];
      FirstIsInLimit(w, roots, queue, level);
      if archive in processed {
        Skips(w, roots, queue, level);
        TakenAgain(w, roots, queue, level, order, taken);
        taken := taken + [archive];
        PopShrinks(queue, []);
        assert queue[1..] + AtDepth([], depth + 1) == queue[1..];
        queue := queue[1..];
        continue;
      }
      LevelsSoFar(w, roots, queue, level);
      TakenNew(w, roots, queue, level, order, taken);
      taken := taken + [archive];
      processed := processed + {archive};
      if w.fails(archive) {
        WithinLimit(w, roots, queue, level);
        return Failed(archive);
      }
      order := order + [archive];
      var nested: seq<Archive> := [];
      if w.isZip(archive) {
        nested := w.contents(archive);
      }
      if nested != [] && depth >= MAX_ZIP_DEPTH {
        MetAtLimit(w, roots, queue, level);
        return TooDeep(archive);
      }
      Expands(w, roots, queue, level);
      PopShrinks(queue, nested);
      level := level[archive := depth];
      queue := queue[1..] + AtDepth(nested, depth + 1);
    }
    Finished(w, roots, level);
    TakenLast(w, roots, level, order, taken);
    assert forall a :: a in order <==> a in level;
    r := Unpacked(order);
  }

  lemma FirstIsInLimit(w: World, roots: seq<Archive>, queue: Queue, level: map<Archive, nat>)
    requires Keeps(w, roots, queue, level) && queue != []
    ensures queue[0].1 <= MAX_ZIP_DEPTH
  {
  }

  lemma WithinLimit(w: World, roots: seq<Archive>, queue: Queue, level: map<Archive, nat>)
    requires Keeps(w, roots, queue, level) && queue != []
    ensures Within(w, roots, MAX_ZIP_DEPTH, queue[0].0)
  {
    hide Within;
    WithinGrows(w, roots, queue[0].1, MAX_ZIP_DEPTH, queue[0].0);
  }

  /** Popping an entry lowers the count at its depth and leaves the shallower counts alone. */
  lemma PopShrinks(queue: Queue, found: seq<Archive>)
    requires queue != [] && queue[0].1 <= MAX_ZIP_DEPTH
    ensures
      var after := queue[1..] + AtDepth(found, queue[0].1 + 1);
      forall d | 0 <= d <= queue[0].1 ::
        CountAt(after, d) == CountAt(queue, d) - if d == queue[0].1 then 1 else 0
  {
    hide CountAt;
    forall d | 0 <= d <= queue[0].1
      ensures CountAt(queue[1..] + AtDepth(found, queue[0].1 + 1), d)
           == CountAt(queue, d) - if d == queue[0].1 then 1 else 0
    {
      PopCounts(queue, found, d);
    }
  }
}
