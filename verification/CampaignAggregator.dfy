/**
 The campaign verdict. The aggregator's counters and early returns decide a rule stated on the
 records as a collection, so the verdict does not depend on their order.
 */
module CampaignAggregator {
  import opened Wrappers
  import opened CampaignValidator

  datatype Verdict = COMPATIBLE | INCOMPATIBLE | INCONCLUSIVE | INVALID_EXPERIMENT

  datatype Crash = ValidatorRaised(index: nat)

  // ----- counting -----

  function Count(ts: seq<Trial>, p: Trial -> bool): (n: nat)
    ensures n <= |ts|
  {
    if ts == [] then 0 else Count(ts[..|ts| - 1], p) + if p(ts[|ts| - 1]) then 1 else 0
  }

  function InvalidAt(boot: string): Trial -> bool {
    (t: Trial) => t.validity == INVALID && t.bootId == boot
  }

  function IsInvalid(): Trial -> bool {
    (t: Trial) => t.validity == INVALID
  }

  function IsValid(): Trial -> bool {
    (t: Trial) => t.validity == VALID
  }

  /** A valid trial that timed out and voted against. */
  predicate IsTimeout(t: Trial) {
    t.validity == VALID && t.vote == INCOMPATIBLE_VOTE && t.terminal == SUPERVISOR_OVERALL_TIMEOUT
  }

  function TimeoutUnder(c: Condition): Trial -> bool {
    (t: Trial) => IsTimeout(t) && t.condition == c
  }

  function InCell(boot: string, c: Condition): Trial -> bool {
    (t: Trial) => t.validity == VALID && t.bootId == boot && t.condition == c
  }

  ghost function Boots(ts: seq<Trial>): set<string> {
    set t | t in ts :: t.bootId
  }

  ghost function TimeoutBoots(ts: seq<Trial>, c: Condition): set<string> {
    set t | t in ts && IsTimeout(t) && t.condition == c :: t.bootId
  }

  // ----- the rule -----

  predicate SameTrial(a: Trial, b: Trial) {
    a.experimentId == b.experimentId && a.sessionId == b.sessionId && a.bootId == b.bootId && a.trialId == b.trialId
  }

  ghost predicate DistinctTrials(ts: seq<Trial>) {
    forall i, j | 0 <= i < j < |ts| :: !SameTrial(ts[i], ts[j])
  }

  ghost predicate OverInvalidCap(ts: seq<Trial>) {
    Count(ts, IsInvalid()) > 2 || exists boot :: Count(ts, InvalidAt(boot)) > 1
  }

  /** Three attributable timeouts under one condition, from two boots. */
  ghost predicate Falsified(ts: seq<Trial>) {
    exists c: Condition :: Count(ts, TimeoutUnder(c)) >= 3 && |TimeoutBoots(ts, c)| >= 2
  }

  ghost predicate CellsFull(ts: seq<Trial>) {
    forall boot | boot in Boots(ts) ::
      Count(ts, InCell(boot, SETTLED_NOMINAL)) >= 2 && Count(ts, InCell(boot, ELEVATED_VALID)) >= 2
  }

  /** Enough of everything, and every valid trial for it. */
  ghost predicate Supported(ts: seq<Trial>) {
    && |Boots(ts)| >= 3 && CellsFull(ts)
    && forall t | t in ts && t.validity == VALID :: t.vote == COMPATIBLE_VOTE
  }

  ghost function Rule(ts: seq<Trial>): Verdict {
    if ts == [] then INCONCLUSIVE
    else if !(forall t | t in ts :: Consistent(t)) || !DistinctTrials(ts) || OverInvalidCap(ts) then INVALID_EXPERIMENT
    else if Falsified(ts) then INCOMPATIBLE
    else if Supported(ts) then COMPATIBLE
    else INCONCLUSIVE
  }

  // ----- counting facts -----

  lemma {:induction false} CountZero(ts: seq<Trial>, p: Trial -> bool)
    ensures Count(ts, p) == 0 <==> forall t | t in ts :: !p(t)
  {
    if ts != [] {
      CountZero(ts[..|ts| - 1], p);
      assert ts == ts[..|ts| - 1] + [ts[|ts| - 1]];
    }
  }

  lemma {:induction false} CountWithout(b: seq<Trial>, k: nat, p: Trial -> bool)
    requires k < |b|
    ensures Count(b, p) == Count(b[..k] + b[k + 1..], p) + if p(b[k]) then 1 else 0
    decreases |b|
  {
    var n := |b| - 1;
    if k == n {
      assert b[..k] + b[k + 1..] == b[..n];
    } else {
      CountWithout(b[..n], k, p);
      var rest := b[..k] + b[k + 1..];
      assert rest[..|rest| - 1] == b[..n][..k] + b[..n][k + 1..] && rest[|rest| - 1] == b[n];
    }
  }

  lemma WithoutOne(b: seq<Trial>, k: nat)
    requires k < |b|
    ensures multiset(b[..k] + b[k + 1..]) == multiset(b) - multiset{b[k]}
  {
    assert b == b[..k] + [b[k]] + b[k + 1..];
  }

  lemma SameMembers(a: seq<Trial>, b: seq<Trial>)
    requires multiset(a) == multiset(b)
    ensures |a| == |b| && forall t :: t in a <==> t in b
  {
    assert |multiset(a)| == |a| && |multiset(b)| == |b|;
    forall t ensures t in a <==> t in b {
      assert t in a <==> t in multiset(a);
      assert t in b <==> t in multiset(b);
    }
  }

  lemma {:induction false} CountPermutes(a: seq<Trial>, b: seq<Trial>, p: Trial -> bool)
    requires multiset(a) == multiset(b)
    ensures Count(a, p) == Count(b, p)
    decreases |a|
  {
    SameMembers(a, b);
    if a != [] {
      var n := |a| - 1;
      assert a[n] in b;
      var k :| 0 <= k < |b| && b[k] == a[n];
      WithoutOne(b, k);
      WithoutOne(a, n);
      assert a[..n] + a[n + 1..] == a[..n];
      hide Count;
      CountPermutes(a[..n], b[..k] + b[k + 1..], p);
      CountWithout(b, k, p);
      CountWithout(a, n, p);
    }
  }

  /** Six cells of three boots hold trials of their own. */
  lemma {:induction false} CellsAreApart(ts: seq<Trial>, a: string, b: string, c: string)
    requires a != b && b != c && a != c
    ensures Count(ts, IsValid()) >=
      Count(ts, InCell(a, SETTLED_NOMINAL)) + Count(ts, InCell(a, ELEVATED_VALID))
      + Count(ts, InCell(b, SETTLED_NOMINAL)) + Count(ts, InCell(b, ELEVATED_VALID))
      + Count(ts, InCell(c, SETTLED_NOMINAL)) + Count(ts, InCell(c, ELEVATED_VALID))
  {
    if ts != [] {
      CellsAreApart(ts[..|ts| - 1], a, b, c);
    }
  }

  lemma ThreeOf(s: set<string>) returns (a: string, b: string, c: string)
    requires |s| >= 3
    ensures a in s && b in s && c in s && a != b && b != c && a != c
  {
    a :| a in s;
    assert |s - {a}| >= 2;
    b :| b in s - {a};
    assert |s - {a} - {b}| >= 1;
    c :| c in s - {a} - {b};
  }

  /** The separate demand for twelve valid trials follows from the cells. */
  lemma TwelveGuardIsDead(ts: seq<Trial>)
    requires |Boots(ts)| >= 3 && CellsFull(ts)
    ensures Count(ts, IsValid()) >= 12
  {
    hide Count, Boots;
    var a, b, c := ThreeOf(Boots(ts));
    CellsAreApart(ts, a, b, c);
  }

  // ----- order -----

  type Key = (string, string, string, string)

  function KeyOf(t: Trial): Key {
    (t.experimentId, t.sessionId, t.bootId, t.trialId)
  }

  ghost function Keys(ts: seq<Trial>): set<Key> {
    set t | t in ts :: KeyOf(t)
  }

  lemma DistinctStep(ts: seq<Trial>)
    requires ts != []
    ensures
      var n := |ts| - 1;
      && Keys(ts) == Keys(ts[..n]) + {KeyOf(ts[n])}
      && (DistinctTrials(ts) <==> DistinctTrials(ts[..n]) && KeyOf(ts[n]) !in Keys(ts[..n]))
  {
    var n := |ts| - 1;
    var front := ts[..n];
    assert ts == front + [ts[n]];
    assert forall i | 0 <= i < n :: front[i] == ts[i];
    if KeyOf(ts[n]) in Keys(front) {
      var t :| t in front && KeyOf(t) == KeyOf(ts[n]);
      var i :| 0 <= i < n && front[i] == t;
      assert SameTrial(ts[i], ts[n]);
    } else {
      forall i | 0 <= i < n ensures !SameTrial(ts[i], ts[n]) {
        assert front[i] in front && KeyOf(front[i]) in Keys(front);
      }
    }
  }

  lemma {:induction false} KeysCounted(ts: seq<Trial>)
    ensures |Keys(ts)| <= |ts| && (|Keys(ts)| == |ts| <==> DistinctTrials(ts))
  {
    if ts != [] {
      KeysCounted(ts[..|ts| - 1]);
      DistinctStep(ts);
      hide DistinctTrials, Keys;
    }
  }

  lemma DistinctPermutes(a: seq<Trial>, b: seq<Trial>)
    requires multiset(a) == multiset(b)
    ensures DistinctTrials(a) <==> DistinctTrials(b)
  {
    SameMembers(a, b);
    KeysCounted(a);
    KeysCounted(b);
    assert Keys(a) == Keys(b);
  }

  lemma CapsPermute(a: seq<Trial>, b: seq<Trial>)
    requires multiset(a) == multiset(b)
    ensures OverInvalidCap(a) <==> OverInvalidCap(b)
    ensures Falsified(a) <==> Falsified(b)
  {
    hide Count;
    SameMembers(a, b);
    CountPermutes(a, b, IsInvalid());
    forall boot ensures Count(a, InvalidAt(boot)) == Count(b, InvalidAt(boot)) {
      CountPermutes(a, b, InvalidAt(boot));
    }
    forall c ensures Count(a, TimeoutUnder(c)) == Count(b, TimeoutUnder(c)) && TimeoutBoots(a, c) == TimeoutBoots(b, c) {
      CountPermutes(a, b, TimeoutUnder(c));
    }
  }

  lemma SupportPermutes(a: seq<Trial>, b: seq<Trial>)
    requires multiset(a) == multiset(b)
    ensures Supported(a) <==> Supported(b)
  {
    hide Count;
    SameMembers(a, b);
    assert Boots(a) == Boots(b);
    forall boot, c ensures Count(a, InCell(boot, c)) == Count(b, InCell(boot, c)) {
      CountPermutes(a, b, InCell(boot, c));
    }
  }

  /** The verdict of a campaign does not depend on the order of its records. */
  lemma VerdictIsOrderFree(a: seq<Trial>, b: seq<Trial>)
    requires multiset(a) == multiset(b)
    ensures Rule(a) == Rule(b)
  {
    hide Count, Consistent, DistinctTrials, OverInvalidCap, Falsified, Supported;
    SameMembers(a, b);
    DistinctPermutes(a, b);
    CapsPermute(a, b);
    SupportPermutes(a, b);
  }

  /**
   What a compatible verdict stands on: three boots, two valid trials in every cell, and every valid
   trial a qualifying completion inside the headroom with its confounders known and absent.
   */
  lemma CompatibleMeans(ts: seq<Trial>)
    requires Rule(ts) == COMPATIBLE
    ensures |Boots(ts)| >= 3 && CellsFull(ts) && Count(ts, IsValid()) >= 12
    ensures forall t | t in ts && t.validity == VALID ::
      && t.terminal == QUALIFYING_COMPLETION && Duration(t) <= 2195.0
      && !t.c1.Present? && !t.c2.Present? && !t.c1.Unknown? && !t.c2.Unknown? && !t.c3.Unknown?
    ensures DistinctTrials(ts) && Count(ts, IsInvalid()) <= 2
  {
    hide Count, Boots, TimeoutBoots, TimingOk, EventsOk, DistinctTrials;
    TwelveGuardIsDead(ts);
    forall t | t in ts && t.validity == VALID
      ensures
        && t.terminal == QUALIFYING_COMPLETION && Duration(t) <= 2195.0
        && !t.c1.Present? && !t.c2.Present? && !t.c1.Unknown? && !t.c2.Unknown? && !t.c3.Unknown?
    {
      assert Consistent(t);
    }
  }

  // ----- the aggregator -----

  datatype Screening = Passed | Rejected | Raised(index: nat)

  /** The first loop reaches record `i` and the validator raises on it. */
  ghost predicate RaisesAt(ts: seq<Trial>, i: nat) {
    i < |ts| && Raises(ts[i]) && (forall j | 0 <= j < i :: Consistent(ts[j])) && DistinctTrials(ts[..i])
  }

  /** What the aggregator may return: the rule's verdict, or the exception of the record that raises. */
  ghost predicate IsOutcome(ts: seq<Trial>, r: Result<Verdict, Crash>) {
    match r
    case Ok(verdict) => verdict == Rule(ts) && forall i :: !RaisesAt(ts, i)
    case Err(ValidatorRaised(index)) => RaisesAt(ts, index)
  }

  /** There is one outcome. */
  lemma OutcomeIsUnique(ts: seq<Trial>, r: Result<Verdict, Crash>, s: Result<Verdict, Crash>)
    requires IsOutcome(ts, r) && IsOutcome(ts, s)
    ensures r == s
  {
    hide Consistent, Raises, Rule;
    if r.Err? && s.Err? {
      ValidExactly(ts[r.error.index]);
      ValidExactly(ts[s.error.index]);
    }
  }

  /** While the validator raises on no record, the aggregator's outcome does not depend on the order. */
  lemma OutcomeIsOrderFree(a: seq<Trial>, b: seq<Trial>, r: Result<Verdict, Crash>, s: Result<Verdict, Crash>)
    requires multiset(a) == multiset(b) && forall t | t in a :: !Raises(t)
    requires IsOutcome(a, r) && IsOutcome(b, s)
    ensures r == s == Ok(Rule(a))
  {
    hide Rule, Raises, Consistent;
    SameMembers(a, b);
    VerdictIsOrderFree(a, b);
    NothingRaises(a);
    NothingRaises(b);
  }

  lemma NothingRaises(ts: seq<Trial>)
    requires forall t | t in ts :: !Raises(t)
    ensures forall i :: !RaisesAt(ts, i)
  {
    hide Raises, Consistent;
    forall i | 0 <= i < |ts| ensures !Raises(ts[i]) {
      assert ts[i] in ts;
    }
  }

  /** With one record that raises and one that is inconsistent, the order decides. */
  lemma OrderDecidesWhoRaises(t: Trial, u: Trial)
    requires Raises(t) && !Raises(u) && !Consistent(u)
    ensures IsOutcome([t, u], Err(ValidatorRaised(0))) && IsOutcome([u, t], Ok(INVALID_EXPERIMENT))
  {
    hide Raises, Consistent;
    var first, second := [t, u], [u, t];
    assert first[0] == t && RaisesAt(first, 0);
    assert second[0] == u && u in second;
    StoppedBefore(second, 0);
  }

  /** Such a pair exists: a reap alone, and the same record incomplete. */
  lemma OrderDecidesOnce()
    ensures
      var t := SOUND.(events := [OTHER_START, REAPED]);
      var u := t.(rootComplete := false);
      IsOutcome([t, u], Err(ValidatorRaised(0))) && IsOutcome([u, t], Ok(INVALID_EXPERIMENT))
  {
    hide IsOutcome, Consistent, Raises;
    var t := SOUND.(events := [OTHER_START, REAPED]);
    ReapAloneRaises();
    IncompleteIsInconsistent(t.(rootComplete := false));
    OrderDecidesWhoRaises(t, t.(rootComplete := false));
  }

  lemma IncompleteIsInconsistent(t: Trial)
    requires !t.rootComplete
    ensures !Consistent(t) && !Raises(t)
  {
  }

  /** A record that stops the loop otherwise keeps it from ever raising. */
  lemma StoppedBefore(ts: seq<Trial>, i: nat)
    requires i < |ts| && !Raises(ts[i]) && (forall j | 0 <= j < i :: !Raises(ts[j]))
    requires !Consistent(ts[i]) || !DistinctTrials(ts[..i + 1])
    ensures forall k :: !RaisesAt(ts, k)
  {
    hide Consistent, Raises;
    forall k | i < k < |ts| ensures !RaisesAt(ts, k) {
      if !DistinctTrials(ts[..i + 1]) {
        assert ts[..k][..i + 1] == ts[..i + 1];
        NotDistinct(ts[..k], i + 1);
      }
    }
  }

  /** The first loop: validate every record and refuse a repeated trial. */
  method Screen(ts: seq<Trial>) returns (r: Screening)
    ensures r.Passed? <==> (forall t | t in ts :: Consistent(t)) && DistinctTrials(ts)
    ensures r.Raised? ==> RaisesAt(ts, r.index)
    ensures !r.Raised? ==> forall i :: !RaisesAt(ts, i)
  {
    hide Consistent, Raises, Errors, DistinctTrials, Keys;
    var seen: set<Key> := {};
    NothingScreened(ts);
    for i := 0 to |ts|
      invariant forall j | 0 <= j < i :: Consistent(ts[j]) && !Raises(ts[j])
      invariant seen == Keys(ts[..i]) && DistinctTrials(ts[..i])
    {
      var errors := Validate(ts[i]);
      ValidExactly(ts[i]);
      assert ts[i] in ts;
      if errors.None? {
        return Raised(i);
      }
      if errors.value != [] {
        StoppedBefore(ts, i);
        return Rejected;
      }
      DistinctStep(ts[..i + 1]);
      assert ts[..i + 1][..i] == ts[..i];
      if KeyOf(ts[i]) in seen {
        StoppedBefore(ts, i);
        NotDistinct(ts, i + 1);
        return Rejected;
      }
      seen := seen + {KeyOf(ts[i])};
    }
    assert ts[..|ts|] == ts;
    r := Passed;
  }

  lemma NothingScreened(ts: seq<Trial>)
    ensures Keys(ts[..0]) == {} && DistinctTrials(ts[..0])
    ensures ts == [] ==> forall i :: !RaisesAt(ts, i)
  {
  }

  lemma NotDistinct(ts: seq<Trial>, k: nat)
    requires k <= |ts| && !DistinctTrials(ts[..k])
    ensures !DistinctTrials(ts)
  {
    var i, j :| 0 <= i < j < k && SameTrial(ts[..k][i], ts[..k][j]);
    assert SameTrial(ts[i], ts[j]);
  }

  /** The running counters of the second loop. */
  datatype Tally = Tally(
    invalidCounts: map<string, nat>,
    totalInvalid: nat,
    valid: seq<Trial>,
    timeouts: seq<Trial>,
    cells: map<(string, Condition), nat>,
    conditions: map<string, set<Condition>>,
    boots: set<string>)

  function Get<K>(m: map<K, nat>, k: K): nat {
    if k in m then m[k] else 0
  }

  function SeenAt(m: map<string, set<Condition>>, boot: string): set<Condition> {
    if boot in m then m[boot] else {}
  }

  ghost function ConditionsOf(ts: seq<Trial>, boot: string): set<Condition> {
    set t | t in ts && t.bootId == boot :: t.condition
  }

  ghost predicate TalliesCounts(y: Tally, ts: seq<Trial>) {
    && (forall b :: Get(y.invalidCounts, b) == Count(ts, InvalidAt(b)))
    && y.totalInvalid == Count(ts, IsInvalid())
    && (forall b, c :: Get(y.cells, (b, c)) == Count(ts, InCell(b, c)))
  }

  ghost predicate TalliesTrials(y: Tally, ts: seq<Trial>) {
    && |y.valid| == Count(ts, IsValid()) && (forall t :: t in y.valid <==> t in ts && t.validity == VALID)
    && (forall t :: t in y.timeouts <==> t in ts && IsTimeout(t))
    && (forall c :: Count(y.timeouts, TimeoutUnder(c)) == Count(ts, TimeoutUnder(c)))
  }

  ghost predicate TalliesSets(y: Tally, ts: seq<Trial>) {
    && (forall b :: SeenAt(y.conditions, b) == ConditionsOf(ts, b))
    && y.boots == Boots(ts)
  }

  ghost predicate Tallies(y: Tally, ts: seq<Trial>) {
    TalliesCounts(y, ts) && TalliesTrials(y, ts) && TalliesSets(y, ts)
  }

  lemma {:induction false} CountAppend(ts: seq<Trial>, t: Trial, p: Trial -> bool)
    ensures Count(ts + [t], p) == Count(ts, p) + if p(t) then 1 else 0
  {
    assert (ts + [t])[..|ts|] == ts;
  }

  function Step(y: Tally, t: Trial): Tally {
    var bumped := y.(boots := y.boots + {t.bootId},
                     conditions := y.conditions[t.bootId := SeenAt(y.conditions, t.bootId) + {t.condition}]);
    if t.validity == INVALID then
      bumped.(invalidCounts := y.invalidCounts[t.bootId := Get(y.invalidCounts, t.bootId) + 1],
              totalInvalid := y.totalInvalid + 1)
    else if t.validity == VALID then
      bumped.(valid := y.valid + [t],
              cells := y.cells[(t.bootId, t.condition) := Get(y.cells, (t.bootId, t.condition)) + 1],
              timeouts := if t.vote == INCOMPATIBLE_VOTE && t.terminal == SUPERVISOR_OVERALL_TIMEOUT
                          then y.timeouts + [t] else y.timeouts)
    else bumped
  }

  lemma StepCounts(y: Tally, ts: seq<Trial>, t: Trial)
    requires TalliesCounts(y, ts)
    ensures TalliesCounts(Step(y, t), ts + [t])
  {
    hide Count;
    var z, us := Step(y, t), ts + [t];
    CountAppend(ts, t, IsInvalid());
    forall b ensures Get(z.invalidCounts, b) == Count(us, InvalidAt(b)) {
      CountAppend(ts, t, InvalidAt(b));
    }
    forall b, c ensures Get(z.cells, (b, c)) == Count(us, InCell(b, c)) {
      CountAppend(ts, t, InCell(b, c));
    }
  }

  lemma StepTrials(y: Tally, ts: seq<Trial>, t: Trial)
    requires TalliesTrials(y, ts)
    ensures TalliesTrials(Step(y, t), ts + [t])
  {
    hide Count;
    var z, us := Step(y, t), ts + [t];
    CountAppend(ts, t, IsValid());
    forall c ensures Count(z.timeouts, TimeoutUnder(c)) == Count(us, TimeoutUnder(c)) {
      CountAppend(ts, t, TimeoutUnder(c));
      CountAppend(y.timeouts, t, TimeoutUnder(c));
    }
  }

  lemma StepSets(y: Tally, ts: seq<Trial>, t: Trial)
    requires TalliesSets(y, ts)
    ensures TalliesSets(Step(y, t), ts + [t])
  {
    var z, us := Step(y, t), ts + [t];
    forall b ensures SeenAt(z.conditions, b) == ConditionsOf(us, b) {
      assert ConditionsOf(us, b) == ConditionsOf(ts, b) + if t.bootId == b then {t.condition} else {};
    }
    assert Boots(us) == Boots(ts) + {t.bootId};
  }

  lemma StepTallies(y: Tally, ts: seq<Trial>, t: Trial)
    requires Tallies(y, ts)
    ensures Tallies(Step(y, t), ts + [t])
  {
    StepCounts(y, ts, t);
    StepTrials(y, ts, t);
    StepSets(y, ts, t);
    hide Step, TalliesCounts, TalliesTrials, TalliesSets;
  }

  method TallyUp(ts: seq<Trial>) returns (y: Tally)
    ensures Tallies(y, ts)
  {
    hide Step, Tallies;
    y := Tally(map[], 0, [], [], map[], map[], {});
    NothingTallied();
    for i := 0 to |ts|
      invariant Tallies(y, ts[..i])
    {
      StepTallies(y, ts[..i], ts[i]);
      assert ts[..i + 1] == ts[..i] + [ts[i]];
      y := Step(y, ts[i]);
    }
    assert ts[..|ts|] == ts;
  }

  lemma NothingTallied()
    ensures Tallies(Tally(map[], 0, [], [], map[], map[], {}), [])
  {
  }

  method SomeOverOne(counts: map<string, nat>) returns (r: bool)
    ensures r <==> exists b :: Get(counts, b) > 1
  {
    var left := counts.Keys;
    while left != {}
      invariant left <= counts.Keys
      invariant forall b | b in counts && b !in left :: counts[b] <= 1
      decreases left
    {
      var b :| b in left;
      if counts[b] > 1 {
        assert Get(counts, b) > 1;
        return true;
      }
      left := left - {b};
    }
    r := false;
  }

  /** The boots and the number of a condition's timeouts. */
  method Group(ts: seq<Trial>, c: Condition) returns (n: nat, boots: set<string>)
    requires forall t | t in ts :: IsTimeout(t)
    ensures n == Count(ts, TimeoutUnder(c)) && boots == TimeoutBoots(ts, c)
  {
    n, boots := 0, {};
    for i := 0 to |ts|
      invariant n == Count(ts[..i], TimeoutUnder(c)) && boots == TimeoutBoots(ts[..i], c)
    {
      assert ts[..i + 1] == ts[..i] + [ts[i]];
      CountAppend(ts[..i], ts[i], TimeoutUnder(c));
      assert ts[i] in ts;
      assert TimeoutBoots(ts[..i + 1], c) == TimeoutBoots(ts[..i], c) + if ts[i].condition == c then {ts[i].bootId} else {};
      if ts[i].condition == c {
        n := n + 1;
        boots := boots + {ts[i].bootId};
      }
    }
    assert ts[..|ts|] == ts;
  }

  method SomeFalsified(ts: seq<Trial>) returns (r: bool)
    requires forall t | t in ts :: IsTimeout(t)
    ensures r <==> Falsified(ts)
  {
    hide Count;
    for i := 0 to |ts|
      invariant forall j | 0 <= j < i ::
        !(Count(ts, TimeoutUnder(ts[j].condition)) >= 3 && |TimeoutBoots(ts, ts[j].condition)| >= 2)
    {
      var n, boots := Group(ts, ts[i].condition);
      if n >= 3 && |boots| >= 2 {
        return true;
      }
    }
    r := false;
    forall c ensures !(Count(ts, TimeoutUnder(c)) >= 3 && |TimeoutBoots(ts, c)| >= 2) {
      CountZero(ts, TimeoutUnder(c));
      if t :| t in ts && t.condition == c {
        var j :| 0 <= j < |ts| && ts[j] == t;
        assert ts[j].condition == c;
      }
    }
  }

  method AllCellsFull(boots: set<string>, cells: map<(string, Condition), nat>) returns (r: bool)
    ensures r <==> forall b | b in boots :: Get(cells, (b, SETTLED_NOMINAL)) >= 2 && Get(cells, (b, ELEVATED_VALID)) >= 2
  {
    var left := boots;
    while left != {}
      invariant left <= boots
      invariant forall b | b in boots - left :: Get(cells, (b, SETTLED_NOMINAL)) >= 2 && Get(cells, (b, ELEVATED_VALID)) >= 2
      decreases left
    {
      var b :| b in left;
      if Get(cells, (b, SETTLED_NOMINAL)) < 2 || Get(cells, (b, ELEVATED_VALID)) < 2 {
        return false;
      }
      left := left - {b};
    }
    r := true;
  }

  method AllConditionsSeen(boots: set<string>, conditions: map<string, set<Condition>>) returns (r: bool)
    ensures r <==> forall b | b in boots ::
      SETTLED_NOMINAL in SeenAt(conditions, b) && ELEVATED_VALID in SeenAt(conditions, b)
  {
    var left := boots;
    while left != {}
      invariant left <= boots
      invariant forall b | b in boots - left ::
        SETTLED_NOMINAL in SeenAt(conditions, b) && ELEVATED_VALID in SeenAt(conditions, b)
      decreases left
    {
      var b :| b in left;
      if SETTLED_NOMINAL !in SeenAt(conditions, b) || ELEVATED_VALID !in SeenAt(conditions, b) {
        return false;
      }
      left := left - {b};
    }
    r := true;
  }

  /** A full cell has a trial, so its condition was seen on its boot. */
  lemma FullCellsWereSeen(ts: seq<Trial>)
    requires CellsFull(ts)
    ensures forall b | b in Boots(ts) :: SETTLED_NOMINAL in ConditionsOf(ts, b) && ELEVATED_VALID in ConditionsOf(ts, b)
  {
    hide Count;
    forall b | b in Boots(ts)
      ensures SETTLED_NOMINAL in ConditionsOf(ts, b) && ELEVATED_VALID in ConditionsOf(ts, b)
    {
      CountZero(ts, InCell(b, SETTLED_NOMINAL));
      CountZero(ts, InCell(b, ELEVATED_VALID));
    }
  }

  lemma TimeoutsDecide(y: Tally, ts: seq<Trial>)
    requires Tallies(y, ts)
    ensures Falsified(y.timeouts) <==> Falsified(ts)
    ensures y.timeouts != [] ==> !Supported(ts)
  {
    hide Count;
    forall c ensures TimeoutBoots(y.timeouts, c) == TimeoutBoots(ts, c) {
    }
    if y.timeouts != [] {
      var t := y.timeouts[0];
      assert t in y.timeouts;
    }
  }

  /**
   The verdict is the rule's, unless the validator raises: on a record whose predecessors are all
   consistent records of different trials, the exception ends the aggregation.
   */
  method Aggregate(ts: seq<Trial>) returns (r: Result<Verdict, Crash>)
    ensures IsOutcome(ts, r)
  {
    hide Count, Consistent, DistinctTrials, RaisesAt, Falsified, Boots;
    if ts == [] {
      NothingScreened(ts);
      return Ok(INCONCLUSIVE);
    }
    var screened := Screen(ts);
    match screened {
      case Raised(i) => return Err(ValidatorRaised(i));
      case Rejected => return Ok(INVALID_EXPERIMENT);
      case Passed =>
    }
    var y := TallyUp(ts);
    TimeoutsDecide(y, ts);
    var over := SomeOverOne(y.invalidCounts);
    if over || y.totalInvalid > 2 {
      return Ok(INVALID_EXPERIMENT);
    }
    var falsified := SomeFalsified(y.timeouts);
    if falsified {
      return Ok(INCOMPATIBLE);
    }
    if |y.boots| < 3 {
      return Ok(INCONCLUSIVE);
    }
    var complete := AllConditionsSeen(y.boots, y.conditions);
    if CellsFull(ts) {
      FullCellsWereSeen(ts);
    }
    if !complete {
      return Ok(INCONCLUSIVE);
    }
    var full := AllCellsFull(y.boots, y.cells);
    if !full {
      return Ok(INCONCLUSIVE);
    }
    if |y.valid| < 12 {
      TwelveGuardIsDead(ts);
      assert false;
    }
    if y.timeouts != [] {
      return Ok(INCONCLUSIVE);
    }
    for i := 0 to |y.valid|
      invariant forall j | 0 <= j < i :: y.valid[j].vote == COMPATIBLE_VOTE
    {
      if y.valid[i].vote != COMPATIBLE_VOTE {
        assert y.valid[i] in y.valid;
        return Ok(INCONCLUSIVE);
      }
    }
    forall t | t in ts && t.validity == VALID ensures t.vote == COMPATIBLE_VOTE {
      assert t in y.valid;
    }
    r := Ok(COMPATIBLE);
  }
}
