/**
 The member index of the ZIP intake: an incremental check against two sets of names. It
 accepts a list of members exactly when a pairwise rule holds of them, in any order.
 */
module ZipIndex {
  import opened Wrappers

  /** A canonical member name as its components, after normalisation and case folding. */
  type Path = seq<string>

  datatype Lexical = NoName | NotPortable | NotRegular | Encrypted | UnknownCompression

  /** `lexical` is what the checks of the single name and its attributes found. */
  datatype Member = Member(path: Path, lexical: Option<Lexical>, fileSize: int, compressSize: int)

  datatype Limits = Limits(maxMembers: int, maxEntrySize: int, maxTotalSize: int, maxRatio: real)

  datatype ZipError =
    | TooManyMembers
    | BadName(problem: Lexical)
    | ReservedName
    | DuplicateName
    | CollidingPath
    | NegativeSize
    | EntryTooLarge
    | TotalTooLarge
    | InfiniteRatio
    | SuspiciousRatio

  datatype Totals = Totals(size: int, compressed: int)

  const MANIFEST: Path := [".safe-zip-manifest.json"]

  // ----- the rule -----

  /** Equal, or one is a proper path-prefix of the other. */
  predicate Clash(a: Path, b: Path) {
    a <= b || b <= a
  }

  /** What the name of a member meets among the names in front of it. */
  function NameProblem(m: Member, earlier: seq<Member>): Option<ZipError> {
    if m.lexical.Some? then Some(BadName(m.lexical.value))
    else if m.path == MANIFEST then Some(ReservedName)
    else if exists i | 0 <= i < |earlier| :: earlier[i].path == m.path then Some(DuplicateName)
    else if exists i | 0 <= i < |earlier| :: Clash(earlier[i].path, m.path) then Some(CollidingPath)
    else None
  }

  predicate Suspicious(m: Member, limits: Limits) {
    m.fileSize as real / (if m.compressSize > 1 then m.compressSize else 1) as real > limits.maxRatio
  }

  function SizeProblem(m: Member, total: int, limits: Limits): Option<ZipError> {
    if m.fileSize < 0 || m.compressSize < 0 then Some(NegativeSize)
    else if m.fileSize > limits.maxEntrySize then Some(EntryTooLarge)
    else if total + m.fileSize > limits.maxTotalSize then Some(TotalTooLarge)
    else if m.fileSize != 0 && m.compressSize == 0 then Some(InfiniteRatio)
    else if Suspicious(m, limits) then Some(SuspiciousRatio)
    else None
  }

  function SumSizes(ms: seq<Member>): int {
    if ms == [] then 0 else SumSizes(ms[..|ms| - 1]) + ms[|ms| - 1].fileSize
  }

  function SumCompressed(ms: seq<Member>): int {
    if ms == [] then 0 else SumCompressed(ms[..|ms| - 1]) + ms[|ms| - 1].compressSize
  }

  function Problem(ms: seq<Member>, k: nat, limits: Limits): Option<ZipError>
    requires k < |ms|
  {
    var name := NameProblem(ms[k], ms[..k]);
    if name.Some? then name else SizeProblem(ms[k], SumSizes(ms[..k]), limits)
  }

  /** The first problem from member `k` on. */
  function FirstProblem(ms: seq<Member>, k: nat, limits: Limits): Option<ZipError>
    requires k <= |ms|
    decreases |ms| - k
  {
    if k == |ms| then None
    else if Problem(ms, k, limits).Some? then Problem(ms, k, limits)
    else FirstProblem(ms, k + 1, limits)
  }

  function CheckResult(ms: seq<Member>, limits: Limits): Result<Totals, ZipError> {
    if |ms| > limits.maxMembers then Err(TooManyMembers)
    else
      match FirstProblem(ms, 0, limits)
      case Some(e) => Err(e)
      case None => Ok(Totals(SumSizes(ms), SumCompressed(ms)))
  }

  // ----- the index -----

  ghost predicate Named(added: seq<Member>, p: Path) {
    exists i :: 0 <= i < |added| && added[i].path == p
  }

  ghost predicate Crossed(added: seq<Member>, p: Path) {
    p != [] && exists i :: 0 <= i < |added| && p <= added[i].path
  }

  /** The names added so far, and every prefix of them, themselves included. */
  ghost predicate Indexes(seen: set<Path>, prefixes: set<Path>, added: seq<Member>) {
    && (forall i | 0 <= i < |added| :: added[i].path != [])
    && (forall p :: p in seen <==> Named(added, p))
    && (forall p :: p in prefixes <==> Crossed(added, p))
  }

  /** The two set lookups decide the pairwise rule. */
  lemma LookupsDecide(seen: set<Path>, prefixes: set<Path>, added: seq<Member>, path: Path)
    requires Indexes(seen, prefixes, added) && path != [] && path !in seen
    ensures (exists j :: 1 <= j < |path| && path[..j] in seen) || path in prefixes <==>
      exists i :: 0 <= i < |added| && Clash(added[i].path, path)
  {
    if j :| 1 <= j < |path| && path[..j] in seen {
      assert Named(added, path[..j]);
      var i :| 0 <= i < |added| && added[i].path == path[..j];
      assert Clash(added[i].path, path);
    }
    if path in prefixes {
      assert Crossed(added, path);
      var i :| 0 <= i < |added| && path <= added[i].path;
      assert Clash(added[i].path, path);
    }
    if i :| 0 <= i < |added| && Clash(added[i].path, path) {
      var other := added[i].path;
      assert Named(added, other);
      if path <= other {
        assert Crossed(added, path);
      } else {
        assert path[..|other|] == other;
      }
    }
  }

  lemma IndexGrows(seen: set<Path>, prefixes: set<Path>, more: set<Path>, added: seq<Member>, m: Member)
    requires Indexes(seen, prefixes, added) && m.path != []
    requires forall p :: p in more <==> p in prefixes || (p != [] && p <= m.path)
    ensures Indexes(seen + {m.path}, more, added + [m])
  {
    var all := added + [m];
    forall p ensures p in seen + {m.path} <==> Named(all, p) {
      if Named(added, p) {
        var i :| 0 <= i < |added| && added[i].path == p;
        assert all[i].path == p;
      }
      if p == m.path {
        assert all[|added|].path == p;
      }
      if Named(all, p) {
        var i :| 0 <= i < |all| && all[i].path == p;
        assert i < |added| ==> Named(added, p);
      }
    }
    forall p ensures p in more <==> Crossed(all, p) {
      if Crossed(added, p) {
        var i :| 0 <= i < |added| && p <= added[i].path;
        assert p <= all[i].path;
      }
      if p != [] && p <= m.path {
        assert p <= all[|added|].path;
      }
      if Crossed(all, p) {
        var i :| 0 <= i < |all| && p <= all[i].path;
        assert i < |added| ==> Crossed(added, p);
      }
    }
  }

  method SomePrefixIn(path: Path, seen: set<Path>) returns (r: bool)
    requires path != []
    ensures r <==> exists j :: 1 <= j < |path| && path[..j] in seen
  {
    for k := 1 to |path|
      invariant forall j | 1 <= j < k :: path[..j] !in seen
    {
      if path[..k] in seen {
        return true;
      }
    }
    r := false;
  }

  method WithPrefixes(path: Path, prefixes: set<Path>) returns (r: set<Path>)
    ensures forall p :: p in r <==> p in prefixes || (p != [] && p <= path)
  {
    r := prefixes;
    for k := 1 to |path| + 1
      invariant forall p :: p in r <==> p in prefixes || (0 < |p| < k && p <= path)
    {
      assert forall p: Path | p <= path && |p| == k :: p == path[..k];
      r := r + {path[..k]};
    }
  }

  class Index {
    var seen: set<Path>
    var seenPrefixes: set<Path>
    ghost var added: seq<Member>

    ghost predicate Valid()
      reads this
    {
      Indexes(seen, seenPrefixes, added)
    }

    constructor ()
      ensures Valid() && added == []
    {
      seen, seenPrefixes, added := {}, {}, [];
    }

    method Add(m: Member) returns (problem: Option<ZipError>)
      requires Valid() && m.path != []
      modifies this
      ensures Valid()
      ensures problem == NameProblem(m, old(added))
      ensures added == if problem.None? then old(added) + [m] else old(added)
    {
      SeenDecides(seen, seenPrefixes, added, m.path);
      hide Indexes, Clash;
      if m.lexical.Some? {
        return Some(BadName(m.lexical.value));
      }
      if m.path == MANIFEST {
        return Some(ReservedName);
      }
      if m.path in seen {
        return Some(DuplicateName);
      }
      LookupsDecide(seen, seenPrefixes, added, m.path);
      var below := SomePrefixIn(m.path, seen);
      if below || m.path in seenPrefixes {
        return Some(CollidingPath);
      }
      var more := WithPrefixes(m.path, seenPrefixes);
      IndexGrows(seen, seenPrefixes, more, added, m);
      seen := seen + {m.path};
      seenPrefixes := more;
      added := added + [m];
      problem := None;
    }
  }

  lemma SeenDecides(seen: set<Path>, prefixes: set<Path>, added: seq<Member>, path: Path)
    requires Indexes(seen, prefixes, added)
    ensures path in seen <==> exists i | 0 <= i < |added| :: added[i].path == path
  {
  }

  /** The intake loop: the running totals and the index report exactly the first problem. */
  method CheckInfos(ms: seq<Member>, limits: Limits) returns (r: Result<Totals, ZipError>)
    requires forall m | m in ms :: m.path != []
    ensures r == CheckResult(ms, limits)
  {
    hide Suspicious;
    if |ms| > limits.maxMembers {
      return Err(TooManyMembers);
    }
    var index := new Index();
    var total, compressed := 0, 0;
    for k := 0 to |ms|
      invariant fresh(index) && index.Valid() && index.added == ms[..k]
      invariant total == SumSizes(ms[..k]) && compressed == SumCompressed(ms[..k])
      invariant FirstProblem(ms, k, limits) == FirstProblem(ms, 0, limits)
    {
      var m := ms[k];
      var problem := index.Add(m);
      if problem.Some? {
        return Err(problem.value);
      }
      var size := SizeProblem(m, total, limits);
      if size.Some? {
        return Err(size.value);
      }
      assert ms[..k + 1][..k] == ms[..k] && ms[..k + 1] == ms[..k] + [m];
      total := total + m.fileSize;
      compressed := compressed + m.compressSize;
    }
    assert ms[..|ms|] == ms;
    r := Ok(Totals(total, compressed));
  }

  // ----- the rule without an order -----

  /** The data expands to at most the limit's multiple of its stored size, of one byte at least. */
  predicate RatioWithin(m: Member, limits: Limits) {
    m.fileSize as real <= limits.maxRatio * (if m.compressSize > 1 then m.compressSize else 1) as real
  }

  lemma RatioDecides(m: Member, limits: Limits)
    ensures Suspicious(m, limits) <==> !RatioWithin(m, limits)
  {
    var size, stored := m.fileSize as real, (if m.compressSize > 1 then m.compressSize else 1) as real;
    assert size == size / stored * stored;
    if size / stored > limits.maxRatio {
      assert size / stored * stored > limits.maxRatio * stored;
    } else {
      assert size / stored * stored <= limits.maxRatio * stored;
    }
  }

  predicate SoundMember(m: Member, limits: Limits) {
    && m.lexical.None? && m.path != [".safe-zip-manifest.json"]
    && 0 <= m.fileSize <= limits.maxEntrySize && m.compressSize >= 0
    && (m.fileSize != 0 ==> m.compressSize != 0) && RatioWithin(m, limits)
  }

  /** No two members share a path or lie on one another's path. */
  ghost predicate PairwiseApart(ms: seq<Member>) {
    forall i, j | 0 <= i < j < |ms| :: !Clash(ms[i].path, ms[j].path)
  }

  ghost predicate Acceptable(ms: seq<Member>, limits: Limits) {
    && |ms| <= limits.maxMembers && PairwiseApart(ms)
    && (forall m | m in ms :: SoundMember(m, limits))
    && (ms != [] ==> SumSizes(ms) <= limits.maxTotalSize)
  }

  lemma {:induction false} FirstProblemNone(ms: seq<Member>, k: nat, limits: Limits)
    requires k <= |ms|
    ensures FirstProblem(ms, k, limits).None? <==> forall i | k <= i < |ms| :: Problem(ms, i, limits).None?
    decreases |ms| - k
  {
    hide Problem;
    if k < |ms| {
      FirstProblemNone(ms, k + 1, limits);
    }
  }

  lemma NameProblemNone(ms: seq<Member>, k: nat)
    requires k < |ms|
    ensures NameProblem(ms[k], ms[..k]).None? <==>
      ms[k].lexical.None? && ms[k].path != MANIFEST && forall i | 0 <= i < k :: !Clash(ms[i].path, ms[k].path)
  {
    var front := ms[..k];
    assert forall i | 0 <= i < k :: front[i] == ms[i];
  }

  lemma {:induction false} SumsGrow(ms: seq<Member>, k: nat)
    requires k <= |ms| && forall m | m in ms :: m.fileSize >= 0
    ensures 0 <= SumSizes(ms[..k]) <= SumSizes(ms)
    decreases |ms|
  {
    if k == |ms| {
      assert ms[..k] == ms;
      if k > 0 {
        SumsGrow(ms[..k - 1], k - 1);
        assert ms[..k - 1][..k - 1] == ms[..k - 1];
      }
    } else {
      SumsGrow(ms[..|ms| - 1], k);
      assert ms[..|ms| - 1][..k] == ms[..k];
    }
  }

  /** The sums add up member by member, whatever their grouping. */
  lemma {:induction false} SumsAdd(a: seq<Member>, b: seq<Member>)
    ensures SumSizes(a + b) == SumSizes(a) + SumSizes(b) && SumCompressed(a + b) == SumCompressed(a) + SumCompressed(b)
    ensures |a| == 1 ==> SumSizes(a) == a[0].fileSize && SumCompressed(a) == a[0].compressSize
  {
    if |a| == 1 {
      assert a[..0] == [];
    }
    if b == [] {
      assert a + b == a;
    } else {
      SumsAdd(a, b[..|b| - 1]);
      assert (a + b)[..|a + b| - 1] == a + b[..|b| - 1];
    }
  }

  lemma CleanMembers(ms: seq<Member>, limits: Limits)
    requires forall i | 0 <= i < |ms| :: Problem(ms, i, limits).None?
    ensures PairwiseApart(ms) && (forall m | m in ms :: SoundMember(m, limits))
    ensures ms != [] ==> SumSizes(ms) <= limits.maxTotalSize
  {
    hide Suspicious, RatioWithin, Clash, NameProblem;
    forall i | 0 <= i < |ms| ensures SoundMember(ms[i], limits) && forall j | 0 <= j < i :: !Clash(ms[j].path, ms[i].path) {
      assert Problem(ms, i, limits).None?;
      NameProblemNone(ms, i);
      RatioDecides(ms[i], limits);
    }
    if ms != [] {
      assert Problem(ms, |ms| - 1, limits).None?;
    }
  }

  lemma NoProblemAt(ms: seq<Member>, k: nat, limits: Limits)
    requires Acceptable(ms, limits) && k < |ms|
    ensures Problem(ms, k, limits).None?
  {
    hide Suspicious, RatioWithin, Clash, NameProblem;
    NameProblemNone(ms, k);
    assert ms[k] in ms && SoundMember(ms[k], limits);
    RatioDecides(ms[k], limits);
    forall m | m in ms ensures m.fileSize >= 0 {
      assert SoundMember(m, limits);
    }
    SumsGrow(ms, k + 1);
    assert ms[..k + 1][..k] == ms[..k];
  }

  /** The incremental check refines the pairwise rule. */
  lemma AcceptsExactly(ms: seq<Member>, limits: Limits)
    ensures CheckResult(ms, limits).Ok? <==> Acceptable(ms, limits)
    ensures CheckResult(ms, limits).Ok? ==> CheckResult(ms, limits).value == Totals(SumSizes(ms), SumCompressed(ms))
  {
    FirstProblemNone(ms, 0, limits);
    hide FirstProblem, SoundMember, Problem, SumSizes, PairwiseApart;
    if forall i | 0 <= i < |ms| :: Problem(ms, i, limits).None? {
      CleanMembers(ms, limits);
    }
    if Acceptable(ms, limits) {
      forall k | 0 <= k < |ms| ensures Problem(ms, k, limits).None? {
        NoProblemAt(ms, k, limits);
      }
    }
  }

  // ----- refusals -----

  /** Nothing is wrong with the name: it is portable, not reserved, and apart from all names in front. */
  ghost predicate NameFits(ms: seq<Member>, k: nat)
    requires k < |ms|
  {
    && ms[k].lexical.None? && ms[k].path != [".safe-zip-manifest.json"]
    && forall i | 0 <= i < k :: !(ms[i].path <= ms[k].path) && !(ms[k].path <= ms[i].path)
  }

  /** Member `k` breaks this rule and none that is tested before it. */
  ghost predicate Breaks(ms: seq<Member>, k: nat, limits: Limits, e: ZipError)
    requires k < |ms|
  {
    var m := ms[k];
    var total := SumSizes(ms[..k]) + m.fileSize;
    var sized := NameFits(ms, k) && m.fileSize >= 0 && m.compressSize >= 0;
    var fits := sized && m.fileSize <= limits.maxEntrySize && total <= limits.maxTotalSize;
    match e
    case TooManyMembers => false
    case BadName(problem) => m.lexical == Some(problem)
    case ReservedName => m.lexical.None? && m.path == [".safe-zip-manifest.json"]
    case DuplicateName =>
      m.lexical.None? && m.path != [".safe-zip-manifest.json"] && exists i :: 0 <= i < k && ms[i].path == m.path
    case CollidingPath =>
      && m.lexical.None? && m.path != [".safe-zip-manifest.json"]
      && (forall i | 0 <= i < k :: ms[i].path != m.path)
      && exists i :: 0 <= i < k && (ms[i].path < m.path || m.path < ms[i].path)
    case NegativeSize => NameFits(ms, k) && (m.fileSize < 0 || m.compressSize < 0)
    case EntryTooLarge => sized && m.fileSize > limits.maxEntrySize
    case TotalTooLarge => sized && m.fileSize <= limits.maxEntrySize && total > limits.maxTotalSize
    case InfiniteRatio => fits && m.fileSize != 0 && m.compressSize == 0
    case SuspiciousRatio =>
      fits && (m.fileSize != 0 ==> m.compressSize != 0)
      && m.fileSize as real > limits.maxRatio * (if m.compressSize > 1 then m.compressSize else 1) as real
  }

  lemma BreaksExactly(ms: seq<Member>, k: nat, limits: Limits, e: ZipError)
    requires k < |ms|
    ensures Problem(ms, k, limits) == Some(e) <==> Breaks(ms, k, limits, e)
  {
    NameProblemNone(ms, k);
    RatioDecides(ms[k], limits);
    hide Suspicious, SumSizes;
    var front := ms[..k];
    assert forall i | 0 <= i < k :: front[i] == ms[i];
    assert NameFits(ms, k) <==> NameProblem(ms[k], front).None?;
  }

  lemma {:induction false} FirstProblemAt(ms: seq<Member>, k: nat, limits: Limits, e: ZipError)
    requires k <= |ms|
    ensures FirstProblem(ms, k, limits) == Some(e) <==>
      exists i: nat :: k <= i < |ms| && Problem(ms, i, limits) == Some(e)
        && forall j: nat | k <= j < i :: Problem(ms, j, limits).None?
    decreases |ms| - k
  {
    hide Problem;
    if k < |ms| {
      FirstProblemAt(ms, k + 1, limits, e);
    }
  }

  lemma CleanFront(ms: seq<Member>, k: nat, limits: Limits)
    requires k <= |ms| <= limits.maxMembers
    ensures (forall j: nat | j < k :: Problem(ms, j, limits).None?) <==> Acceptable(ms[..k], limits)
  {
    hide Problem, Acceptable;
    var front := ms[..k];
    forall j: nat | j < k ensures Problem(front, j, limits) == Problem(ms, j, limits) {
      SameProblem(ms, k, j, limits);
    }
    FirstProblemNone(front, 0, limits);
    AcceptsExactly(front, limits);
  }

  lemma SameProblem(ms: seq<Member>, k: nat, j: nat, limits: Limits)
    requires j < k <= |ms|
    ensures Problem(ms[..k], j, limits) == Problem(ms, j, limits)
  {
    assert ms[..k][..j] == ms[..j];
  }

  /** A list is refused for the first member that breaks a rule behind an acceptable front, and for that rule. */
  lemma RefusedExactly(ms: seq<Member>, limits: Limits, e: ZipError)
    ensures CheckResult(ms, limits) == Err(e) <==>
      if |ms| > limits.maxMembers then e == TooManyMembers
      else exists k: nat :: k < |ms| && Acceptable(ms[..k], limits) && Breaks(ms, k, limits, e)
  {
    hide FirstProblem, Problem, Acceptable, Breaks, SumSizes, SumCompressed;
    FirstProblemAt(ms, 0, limits, e);
    forall k: nat | k < |ms|
      ensures Problem(ms, k, limits) == Some(e) <==> Breaks(ms, k, limits, e)
      ensures |ms| <= limits.maxMembers ==>
        ((forall j: nat | j < k :: Problem(ms, j, limits).None?) <==> Acceptable(ms[..k], limits))
    {
      BreaksExactly(ms, k, limits, e);
      if |ms| <= limits.maxMembers {
        CleanFront(ms, k, limits);
      }
    }
  }

  // ----- acceptance does not depend on the order -----

  /** Taking one occurrence out of a sequence. */
  lemma Without(b: seq<Member>, k: nat)
    requires k < |b|
    ensures multiset(b) == multiset(b[..k] + b[k + 1..]) + multiset{b[k]}
    ensures multiset(b[..k] + b[k + 1..]) == multiset(b) - multiset{b[k]}
  {
    assert b == b[..k] + [b[k]] + b[k + 1..];
  }

  lemma FindIn(b: seq<Member>, x: Member) returns (k: nat)
    requires x in multiset(b)
    ensures k < |b| && b[k] == x
  {
    k :| 0 <= k < |b| && b[k] == x;
  }

  lemma RepeatInPermutation(a: seq<Member>, b: seq<Member>, i: nat, j: nat)
    requires multiset(a) == multiset(b) && i < j < |a|
    ensures exists k, l :: 0 <= k < |b| && 0 <= l < |b| && k != l && b[k] == a[i] && b[l] == a[j]
  {
    var x, y := a[i], a[j];
    Without(a, i);
    var front := a[..i] + a[i + 1..];
    assert front[j - 1] == y;
    assert x in multiset(a) && y in multiset(front);
    var k := FindIn(b, x);
    Without(b, k);
    var rest := b[..k] + b[k + 1..];
    assert multiset(rest) == multiset(front);
    var l := FindIn(rest, y);
    var m := if l < k then l else l + 1;
    assert b[m] == y && m != k;
  }

  lemma {:induction false} SumOfPermutation(a: seq<Member>, b: seq<Member>)
    requires multiset(a) == multiset(b)
    ensures SumSizes(a) == SumSizes(b) && |a| == |b|
    decreases |a|
  {
    assert |multiset(a)| == |a| && |multiset(b)| == |b|;
    if a != [] {
      var n := |a| - 1;
      assert a[n] in multiset(a);
      var k := FindIn(b, a[n]);
      var rest := b[..k] + b[k + 1..];
      Without(b, k);
      Without(a, n);
      assert a[..n] + a[n + 1..] == a[..n];
      SumOfPermutation(a[..n], rest);
      SumWithout(b, k);
    }
  }

  lemma {:induction false} SumWithout(b: seq<Member>, k: nat)
    requires k < |b|
    ensures SumSizes(b) == SumSizes(b[..k] + b[k + 1..]) + b[k].fileSize
    decreases |b|
  {
    var n := |b| - 1;
    if k == n {
      assert b[..k] + b[k + 1..] == b[..n];
    } else {
      var c := b[..n];
      SumWithout(c, k);
      var rest := b[..k] + b[k + 1..];
      assert rest[..|rest| - 1] == c[..k] + c[k + 1..] && rest[|rest| - 1] == b[n];
    }
  }

  /** Any permutation of the members is accepted alike, with the same total. */
  lemma OrderDoesNotMatter(a: seq<Member>, b: seq<Member>, limits: Limits)
    requires multiset(a) == multiset(b)
    ensures CheckResult(a, limits).Ok? == CheckResult(b, limits).Ok?
    ensures CheckResult(a, limits).Ok? ==> CheckResult(a, limits).value.size == CheckResult(b, limits).value.size
  {
    AcceptsExactly(a, limits);
    AcceptsExactly(b, limits);
    SumOfPermutation(a, b);
    hide CheckResult, Suspicious, SumSizes;
    if Acceptable(b, limits) {
      AcceptablePermutes(b, a, limits);
    }
    if Acceptable(a, limits) {
      AcceptablePermutes(a, b, limits);
    }
  }

  lemma AcceptablePermutes(a: seq<Member>, b: seq<Member>, limits: Limits)
    requires multiset(a) == multiset(b) && Acceptable(a, limits)
    ensures Acceptable(b, limits)
  {
    SumOfPermutation(a, b);
    hide Suspicious, SumSizes, Clash, SoundMember;
    forall m | m in b ensures SoundMember(m, limits) {
      assert m in multiset(b);
      assert m in a;
    }
    forall i, j | 0 <= i < j < |b| ensures !Clash(b[i].path, b[j].path) {
      RepeatInPermutation(b, a, i, j);
      var k, l :| 0 <= k < |a| && 0 <= l < |a| && k != l && a[k] == b[i] && a[l] == b[j];
      ClashIsSymmetric(a[k].path, a[l].path);
    }
  }

  lemma ClashIsSymmetric(p: Path, q: Path)
    ensures Clash(p, q) == Clash(q, p)
  {
  }
}
