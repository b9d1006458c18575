/** What each campaign verdict means, by positions in the list of records and without counting. */
module CampaignMeaning {
  import opened Wrappers
  import opened CampaignValidator
  import opened CampaignAggregator

  // ----- the conditions -----

  ghost predicate Repeated(ts: seq<Trial>) {
    exists i, j :: 0 <= i < j < |ts|
      && ts[i].experimentId == ts[j].experimentId && ts[i].sessionId == ts[j].sessionId
      && ts[i].bootId == ts[j].bootId && ts[i].trialId == ts[j].trialId
  }

  predicate InvalidPair(ts: seq<Trial>, i: nat, j: nat) {
    i < j < |ts| && ts[i].validity == INVALID && ts[j].validity == INVALID && ts[i].bootId == ts[j].bootId
  }

  /** Two invalid records of one boot, or three at all. */
  ghost predicate CapsBroken(ts: seq<Trial>) {
    || (exists i: nat, j: nat :: InvalidPair(ts, i, j))
    || (exists i, j, k :: 0 <= i < j < k < |ts|
          && ts[i].validity == INVALID && ts[j].validity == INVALID && ts[k].validity == INVALID)
  }

  /** A valid record that timed out under the supervisor and votes against. */
  predicate TimedOut(t: Trial, c: Condition) {
    && t.validity == VALID && t.vote == INCOMPATIBLE_VOTE && t.terminal == SUPERVISOR_OVERALL_TIMEOUT
    && t.condition == c
  }

  /** Three timeouts under one condition, not all from one boot. */
  predicate TimeoutsAt(ts: seq<Trial>, i: nat, j: nat, k: nat, c: Condition) {
    && i < j < k < |ts|
    && TimedOut(ts[i], c) && TimedOut(ts[j], c) && TimedOut(ts[k], c)
    && !(ts[i].bootId == ts[j].bootId == ts[k].bootId)
  }

  ghost predicate ThreeTimeouts(ts: seq<Trial>) {
    exists i: nat, j: nat, k: nat, c :: TimeoutsAt(ts, i, j, k, c)
  }

  predicate BootsAt(ts: seq<Trial>, i: nat, j: nat, k: nat) {
    && i < |ts| && j < |ts| && k < |ts|
    && ts[i].bootId != ts[j].bootId && ts[j].bootId != ts[k].bootId && ts[i].bootId != ts[k].bootId
  }

  ghost predicate ThreeBoots(ts: seq<Trial>) {
    exists i: nat, j: nat, k: nat :: BootsAt(ts, i, j, k)
  }

  predicate ValidIn(t: Trial, boot: string, c: Condition) {
    t.validity == VALID && t.bootId == boot && t.condition == c
  }

  ghost predicate TwoValid(ts: seq<Trial>, boot: string, c: Condition) {
    exists i, j :: 0 <= i < j < |ts| && ValidIn(ts[i], boot, c) && ValidIn(ts[j], boot, c)
  }

  // ----- counts as positions -----

  ghost predicate AtLeastTwo(ts: seq<Trial>, p: Trial -> bool) {
    exists i, j :: 0 <= i < j < |ts| && p(ts[i]) && p(ts[j])
  }

  ghost predicate AtLeastThree(ts: seq<Trial>, p: Trial -> bool) {
    exists i, j, k :: 0 <= i < j < k < |ts| && p(ts[i]) && p(ts[j]) && p(ts[k])
  }

  lemma {:induction false} CountsOne(ts: seq<Trial>, p: Trial -> bool)
    ensures Count(ts, p) >= 1 <==> exists i :: 0 <= i < |ts| && p(ts[i])
  {
    if ts != [] {
      var n := |ts| - 1;
      CountsOne(ts[..n], p);
      assert forall i | 0 <= i < n :: ts[..n][i] == ts[i];
    }
  }

  lemma {:induction false} CountsTwo(ts: seq<Trial>, p: Trial -> bool)
    ensures Count(ts, p) >= 2 <==> AtLeastTwo(ts, p)
  {
    if ts != [] {
      var n := |ts| - 1;
      CountsOne(ts[..n], p);
      CountsTwo(ts[..n], p);
      assert forall i | 0 <= i < n :: ts[..n][i] == ts[i];
      if p(ts[n]) {
        if i :| 0 <= i < n && p(ts[..n][i]) {
          assert p(ts[i]);
        }
      }
    }
  }

  lemma {:induction false} CountsThree(ts: seq<Trial>, p: Trial -> bool)
    ensures Count(ts, p) >= 3 <==> AtLeastThree(ts, p)
  {
    if ts != [] {
      var n := |ts| - 1;
      CountsTwo(ts[..n], p);
      CountsThree(ts[..n], p);
      assert forall i | 0 <= i < n :: ts[..n][i] == ts[i];
      if p(ts[n]) {
        if i, j :| 0 <= i < j < n && p(ts[..n][i]) && p(ts[..n][j]) {
          assert p(ts[i]) && p(ts[j]) && p(ts[n]);
        }
      }
    }
  }

  lemma PairsExactly(ts: seq<Trial>)
    ensures (exists boot :: Count(ts, InvalidAt(boot)) > 1) <==> exists i: nat, j: nat :: InvalidPair(ts, i, j)
  {
    hide Count, AtLeastTwo;
    if boot :| Count(ts, InvalidAt(boot)) > 1 {
      CountsTwo(ts, InvalidAt(boot));
      PairOf(ts, boot);
    }
    if i: nat, j: nat :| InvalidPair(ts, i, j) {
      InvalidsOf(ts, i, j);
      CountsTwo(ts, InvalidAt(ts[i].bootId));
    }
  }

  lemma PairOf(ts: seq<Trial>, boot: string)
    requires AtLeastTwo(ts, InvalidAt(boot))
    ensures exists i: nat, j: nat :: InvalidPair(ts, i, j)
  {
    var p := InvalidAt(boot);
    var i, j :| 0 <= i < j < |ts| && p(ts[i]) && p(ts[j]);
    assert InvalidPair(ts, i, j);
  }

  lemma InvalidsOf(ts: seq<Trial>, i: nat, j: nat)
    requires InvalidPair(ts, i, j)
    ensures AtLeastTwo(ts, InvalidAt(ts[i].bootId))
  {
    var p := InvalidAt(ts[i].bootId);
    assert p(ts[i]) && p(ts[j]);
  }

  lemma CapsExactly(ts: seq<Trial>)
    ensures OverInvalidCap(ts) <==> CapsBroken(ts)
  {
    hide Count, InvalidPair;
    CountsThree(ts, IsInvalid());
    PairsExactly(ts);
  }

  lemma TimeoutsExactly(ts: seq<Trial>)
    ensures Falsified(ts) <==> ThreeTimeouts(ts)
  {
    hide Count, TimeoutsAt;
    if Falsified(ts) {
      var c :| Count(ts, TimeoutUnder(c)) >= 3 && |TimeoutBoots(ts, c)| >= 2;
      CountsThree(ts, TimeoutUnder(c));
      hide TimeoutBoots;
      ApartTimeouts(ts, c);
    }
    if i: nat, j: nat, k: nat, c :| TimeoutsAt(ts, i, j, k, c) {
      hide TimeoutBoots, ThreeTimeouts;
      TimeoutsFalsify(ts, i, j, k, c);
    }
  }

  lemma TimeoutsFalsify(ts: seq<Trial>, i: nat, j: nat, k: nat, c: Condition)
    requires TimeoutsAt(ts, i, j, k, c)
    ensures Count(ts, TimeoutUnder(c)) >= 3 && |TimeoutBoots(ts, c)| >= 2
  {
    hide Count;
    var p := TimeoutUnder(c);
    assert p(ts[i]) && p(ts[j]) && p(ts[k]);
    CountsThree(ts, p);
    var boots := TimeoutBoots(ts, c);
    assert ts[i].bootId in boots && ts[j].bootId in boots && ts[k].bootId in boots;
    TwoMembers(boots, ts[i].bootId, ts[j].bootId);
    TwoMembers(boots, ts[j].bootId, ts[k].bootId);
  }

  lemma TwoMembers(s: set<string>, a: string, b: string)
    requires a in s && b in s
    ensures a != b ==> |s| >= 2
  {
    var rest := s - {a};
    assert a != b ==> b in rest;
    assert s == rest + {a};
  }

  lemma OtherMember(s: set<string>, a: string) returns (b: string)
    requires |s| >= 2
    ensures b in s && b != a
  {
    b :| b in s;
    if b == a {
      assert |s - {a}| >= 1;
      b :| b in s - {a};
    }
  }

  /** Of three timeouts over two boots, three can be picked that are not all from one boot. */
  lemma ApartTimeouts(ts: seq<Trial>, c: Condition)
    requires AtLeastThree(ts, TimeoutUnder(c)) && |TimeoutBoots(ts, c)| >= 2
    ensures ThreeTimeouts(ts)
  {
    var p := TimeoutUnder(c);
    var i, j, k :| 0 <= i < j < k < |ts| && p(ts[i]) && p(ts[j]) && p(ts[k]);
    if ts[i].bootId == ts[j].bootId == ts[k].bootId {
      var m := ElsewhereTimeout(ts, c, ts[i].bootId);
      hide TimeoutBoots, AtLeastThree;
      if m < i {
        assert TimeoutsAt(ts, m, i, j, c);
      } else if m < j {
        assert TimeoutsAt(ts, i, m, j, c);
      } else {
        assert TimeoutsAt(ts, i, j, m, c);
      }
    } else {
      assert TimeoutsAt(ts, i, j, k, c);
    }
  }

  lemma ElsewhereTimeout(ts: seq<Trial>, c: Condition, boot: string) returns (m: nat)
    requires |TimeoutBoots(ts, c)| >= 2
    ensures m < |ts| && TimedOut(ts[m], c) && ts[m].bootId != boot
  {
    var other := OtherMember(TimeoutBoots(ts, c), boot);
    var t :| t in ts && IsTimeout(t) && t.condition == c && t.bootId == other;
    m :| 0 <= m < |ts| && ts[m] == t;
  }

  lemma BootsExactly(ts: seq<Trial>)
    ensures |Boots(ts)| >= 3 <==> ThreeBoots(ts)
  {
    if |Boots(ts)| >= 3 {
      var a, b, c := ThreeOf(Boots(ts));
      var i := BootAt(ts, a);
      var j := BootAt(ts, b);
      var k := BootAt(ts, c);
      assert BootsAt(ts, i, j, k);
    }
    if i: nat, j: nat, k: nat :| BootsAt(ts, i, j, k) {
      ThreeMembers(Boots(ts), ts[i].bootId, ts[j].bootId, ts[k].bootId);
    }
  }

  lemma BootAt(ts: seq<Trial>, boot: string) returns (i: nat)
    requires boot in Boots(ts)
    ensures i < |ts| && ts[i].bootId == boot
  {
    i :| 0 <= i < |ts| && ts[i].bootId == boot;
  }

  lemma ThreeMembers(s: set<string>, a: string, b: string, c: string)
    requires a in s && b in s && c in s && a != b && b != c && a != c
    ensures |s| >= 3
  {
    var rest := s - {a};
    TwoMembers(rest, b, c);
    assert s == rest + {a};
  }

  lemma CellExactly(ts: seq<Trial>, boot: string, c: Condition)
    ensures Count(ts, InCell(boot, c)) >= 2 <==> TwoValid(ts, boot, c)
  {
    hide Count;
    var p := InCell(boot, c);
    CountsTwo(ts, p);
    assert forall t :: p(t) <==> ValidIn(t, boot, c);
    hide ValidIn;
  }

  lemma CellsExactly(ts: seq<Trial>)
    ensures CellsFull(ts) <==>
      forall t | t in ts :: TwoValid(ts, t.bootId, SETTLED_NOMINAL) && TwoValid(ts, t.bootId, ELEVATED_VALID)
  {
    hide Count, TwoValid;
    forall boot, c ensures Count(ts, InCell(boot, c)) >= 2 <==> TwoValid(ts, boot, c) {
      CellExactly(ts, boot, c);
    }
  }

  /** A timeout votes against, so three of them leave no support. */
  lemma TimeoutsDenySupport(ts: seq<Trial>)
    requires ThreeTimeouts(ts)
    ensures exists t :: t in ts && t.validity == VALID && t.vote != COMPATIBLE_VOTE
  {
    var i: nat, j: nat, k: nat, c :| TimeoutsAt(ts, i, j, k, c);
    assert ts[i] in ts;
  }

  // ----- the verdicts -----

  /** The records are sound, different and within the caps. */
  ghost predicate Admitted(ts: seq<Trial>) {
    && ts != [] && (forall t | t in ts :: Consistent(t)) && !Repeated(ts) && !CapsBroken(ts)
  }

  /**
   A returned verdict is INVALID_EXPERIMENT, INCOMPATIBLE or COMPATIBLE exactly under these conditions
   on the records, and INCONCLUSIVE otherwise.
   */
  lemma VerdictExactly(ts: seq<Trial>, r: Result<Verdict, Crash>)
    requires IsOutcome(ts, r) && r.Ok?
    ensures r.value == INVALID_EXPERIMENT <==> ts != [] && !Admitted(ts)
    ensures r.value == INCOMPATIBLE <==> Admitted(ts) && ThreeTimeouts(ts)
    ensures r.value == COMPATIBLE <==>
      && Admitted(ts) && ThreeBoots(ts)
      && (forall t | t in ts :: TwoValid(ts, t.bootId, SETTLED_NOMINAL) && TwoValid(ts, t.bootId, ELEVATED_VALID))
      && (forall t | t in ts && t.validity == VALID :: t.vote == COMPATIBLE_VOTE)
  {
    hide Consistent, RaisesAt, OverInvalidCap, CapsBroken, Falsified, ThreeTimeouts, Boots, ThreeBoots, CellsFull, TwoValid;
    CapsExactly(ts);
    TimeoutsExactly(ts);
    BootsExactly(ts);
    CellsExactly(ts);
    if ThreeTimeouts(ts) {
      TimeoutsDenySupport(ts);
    }
    assert Repeated(ts) <==> !DistinctTrials(ts);
  }

  /** A single timeout is INCONCLUSIVE, whatever the rest of the campaign. */
  lemma SingleTimeoutIsInconclusive(ts: seq<Trial>, r: Result<Verdict, Crash>, i: nat)
    requires IsOutcome(ts, r) && r.Ok? && Admitted(ts)
    requires i < |ts| && TimedOut(ts[i], ts[i].condition)
    requires forall j | 0 <= j < |ts| && j != i :: !TimedOut(ts[j], ts[j].condition)
    ensures r == Ok(INCONCLUSIVE)
  {
    hide IsOutcome, Admitted, ThreeBoots, TwoValid;
    VerdictExactly(ts, r);
    assert ts[i] in ts;
  }
}
