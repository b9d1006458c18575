/**
 The validator of one trial record: timing arithmetic, the order of its events, and the rules that
 tie its classification to its confounders. An empty error list means a consistent record.
 */
module CampaignValidator {
  import opened Wrappers
  import opened JsonValues

  datatype Condition = SETTLED_NOMINAL | ELEVATED_VALID | OtherCondition(name: string)

  datatype Terminal = QUALIFYING_COMPLETION | SUPERVISOR_OVERALL_TIMEOUT | OtherTerminal(legal: bool, name: string)

  datatype Validity = VALID | INVALID | TRIAL_INCONCLUSIVE | OtherValidity(name: string)

  datatype Vote = COMPATIBLE_VOTE | INCOMPATIBLE_VOTE | NO_VOTE | OtherVote(name: string)

  /** A confounder's class, as far as the rules look at it. */
  datatype Confounder = Present | Unknown | OtherClass(name: string)

  /** `Unhashable` is a list or an object in place of the name. */
  datatype EventKind = AttemptSpawn | ProcessReap | OtherKnown(name: string) | UnknownKind(name: string) | Unhashable

  datatype Event = Event(
    isObject: bool,          // everything below is read from an object
    sequence: JVal,
    time: JVal,
    kind: EventKind,
    bound: bool,             // it carries the record's own boot, session, trial, attempt and pid
    complete: bool,          // every other field is there, the payload's included
    payloadReads: bool)      // its payload can be searched for the fields its kind requires

  /** In a numeric field a list or an object behaves as a text does. */
  datatype Timing = Timing(
    isObject: bool,
    startNs: JVal,
    endNs: JVal,
    elapsedNs: JVal,
    elapsedSeconds: JVal,
    headroomSeconds: JVal,
    supervisorSeconds: JVal)

  datatype Trial = Trial(
    experimentId: string,
    sessionId: string,
    bootId: string,
    trialId: string,
    rootComplete: bool,      // the record is an object with every required field
    schemaReads: bool,       // no check of the identity, pattern and field rules raises
    schemaProblems: nat,     // the errors of those checks
    condition: Condition,
    timing: Timing,
    events: seq<Event>,      // empty when the field holds no list
    classReads: bool,        // the classification, the confounders and each of them are objects
    terminal: Terminal,
    validity: Validity,
    vote: Vote,
    c1: Confounder,
    c2: Confounder,
    c3: Confounder)

  datatype Error =
    | MissingRootField
    | SchemaProblem
    | IllegalCondition
    | MissingTiming(field: string)
    | InvalidStart
    | InvalidEnd
    | TimeReversal
    | DurationNsMismatch
    | DurationSecondsMismatch
    | HeadroomMismatch
    | ClockDesync
    | TooFewEvents
    | EventIncomplete(index: nat)
    | SequenceNotIncreasing(index: nat)
    | TimeNotMonotonic(index: nat)
    | IdentityMismatch(index: nat)
    | UnknownEvent(index: nat)
    | MissingSpawn
    | ReapBeforeSpawn
    | IllegalTerminal
    | IllegalValidity
    | IllegalVote
    | C1Conflict
    | C2Conflict
    | C3Conflict
    | UnknownConflict
    | CompatibleNeedsValid
    | CompatibleNeedsCompletion
    | CompatibleOverHeadroom
    | IncompatibleNeedsValid
    | IncompatibleNeedsTimeout
    | IncompatibleUnderTimeout

  function When(c: bool, e: Error): seq<Error> {
    if c then [e] else []
  }

  // ----- timing -----

  function Span(m: Timing): real {
    Value(m.endNs) - Value(m.startNs)
  }

  function Duration(t: Trial): real {
    Span(t.timing) / 1_000_000_000.0
  }

  predicate Near(a: real, b: real, tolerance: real) {
    -tolerance <= a - b <= tolerance
  }

  /** The subtraction of the two stamps and the division of its result do not raise. */
  predicate SpanReads(m: Timing) {
    && ReadsAsNumber(m.startNs) && ReadsAsNumber(m.endNs)
    && if m.startNs.Real? || m.endNs.Real? then ConvertsToFloat(m.startNs) && ConvertsToFloat(m.endNs) else Floats(Span(m))
  }

  /** A field of seconds can be subtracted from a float. */
  predicate SecondsRead(v: JVal) {
    ReadsAsNumber(v) && ConvertsToFloat(v)
  }

  predicate TimingReads(m: Timing) {
    && m.isObject && SpanReads(m)
    && SecondsRead(m.elapsedSeconds) && SecondsRead(m.headroomSeconds) && SecondsRead(m.supervisorSeconds)
  }

  function MissingErrors(m: Timing): seq<Error> {
    When(m.startNs.Absent?, MissingTiming("post_fork_monotonic_ns"))
      + When(m.endNs.Absent?, MissingTiming("terminal_monotonic_ns"))
      + When(m.elapsedNs.Absent?, MissingTiming("candidate_elapsed_duration_ns"))
      + When(m.elapsedSeconds.Absent?, MissingTiming("candidate_elapsed_duration_seconds"))
      + When(m.headroomSeconds.Absent?, MissingTiming("canonical_headroom_seconds"))
      + When(m.supervisorSeconds.Absent?, MissingTiming("supervisor_integer_elapsed_sec"))
  }

  /** No integer, or a negative one; an absent stamp reads as zero. */
  predicate BadStamp(v: JVal) {
    !(v.Absent? || IsIntegral(v)) || Value(v) < 0.0
  }

  predicate SpanWritten(m: Timing) {
    IsNumber(m.elapsedNs) && Value(m.elapsedNs) == Span(m)
  }

  /** The errors of the timing section, where it does not raise. */
  function TimingErrors(m: Timing): seq<Error> {
    var seconds := Span(m) / 1_000_000_000.0;
    MissingErrors(m) + When(BadStamp(m.startNs), InvalidStart) + When(BadStamp(m.endNs), InvalidEnd)
      + When(Value(m.endNs) < Value(m.startNs), TimeReversal)
      + When(!SpanWritten(m), DurationNsMismatch)
      + When(!Near(Value(m.elapsedSeconds), seconds, 0.000001), DurationSecondsMismatch)
      + When(!Near(Value(m.headroomSeconds), 2200.0 - seconds, 0.000001), HeadroomMismatch)
      + When(!Near(seconds, Value(m.supervisorSeconds), 1.1), ClockDesync)
  }

  /** The timing section, statement by statement; nothing is returned when one of them raises. */
  method CheckTiming(m: Timing) returns (r: Option<seq<Error>>)
    ensures r == if TimingReads(m) then Some(TimingErrors(m)) else None
  {
    hide MissingErrors, BadStamp, Near, Floats, When, SpanWritten;
    if !m.isObject {
      return None;
    }
    var errors := MissingErrors(m) + When(BadStamp(m.startNs), InvalidStart) + When(BadStamp(m.endNs), InvalidEnd);
    if !ReadsAsNumber(m.startNs) || !ReadsAsNumber(m.endNs) {
      return None;
    }
    errors := errors + When(Value(m.endNs) < Value(m.startNs), TimeReversal);
    if (m.startNs.Real? || m.endNs.Real?) && !(ConvertsToFloat(m.startNs) && ConvertsToFloat(m.endNs)) {
      return None;
    }
    errors := errors + When(!SpanWritten(m), DurationNsMismatch);
    if !m.startNs.Real? && !m.endNs.Real? && !Floats(Span(m)) {
      return None;
    }
    var seconds := Span(m) / 1_000_000_000.0;
    if !SecondsRead(m.elapsedSeconds) {
      return None;
    }
    errors := errors + When(!Near(Value(m.elapsedSeconds), seconds, 0.000001), DurationSecondsMismatch);
    if !SecondsRead(m.headroomSeconds) {
      return None;
    }
    errors := errors + When(!Near(Value(m.headroomSeconds), 2200.0 - seconds, 0.000001), HeadroomMismatch);
    if !SecondsRead(m.supervisorSeconds) {
      return None;
    }
    r := Some(errors + When(!Near(seconds, Value(m.supervisorSeconds), 1.1), ClockDesync));
  }

  // ----- events -----

  function EventErrors(es: seq<Event>, k: nat): seq<Error>
    requires k < |es|
  {
    var e := es[k];
    When(!e.complete || e.sequence.Absent? || e.time.Absent?, EventIncomplete(k))
      + When(Value(e.sequence) <= (if k == 0 then -1.0 else Value(es[k - 1].sequence)), SequenceNotIncreasing(k))
      + When(Value(e.time) < (if k == 0 then -1.0 else Value(es[k - 1].time)), TimeNotMonotonic(k))
      + When(!e.bound, IdentityMismatch(k))
      + When(e.kind.UnknownKind?, UnknownEvent(k))
  }

  function EventPass(es: seq<Event>, k: nat): seq<Error>
    requires k <= |es|
  {
    if k == 0 then [] else EventPass(es, k - 1) + EventErrors(es, k - 1)
  }

  /** Position of the first event of a kind. */
  function IndexOf(es: seq<Event>, kind: EventKind): (r: Option<nat>)
    ensures r.Some? ==> r.value < |es| && es[r.value].kind == kind && forall i | 0 <= i < r.value :: es[i].kind != kind
    ensures r.None? ==> forall i | 0 <= i < |es| :: es[i].kind != kind
  {
    if es == [] then None
    else
      var front := IndexOf(es[..|es| - 1], kind);
      if front.Some? then front else if es[|es| - 1].kind == kind then Some(|es| - 1) else None
  }

  /** The turn of the loop over one event does not raise. */
  predicate EventReads(e: Event) {
    && e.isObject && ReadsAsNumber(e.sequence) && ReadsAsNumber(e.time)
    && !e.kind.Unhashable? && (e.kind.UnknownKind? || e.payloadReads)
  }

  predicate AllRead(es: seq<Event>) {
    forall i | 0 <= i < |es| :: EventReads(es[i])
  }

  /** An event that cannot be read raises, and so does the lookup of the spawn for a reap without one. */
  predicate EventsRaise(es: seq<Event>) {
    |es| >= 2 && (!AllRead(es) || (IndexOf(es, AttemptSpawn).None? && IndexOf(es, ProcessReap).Some?))
  }

  predicate Raises(t: Trial) {
    t.rootComplete && (!t.schemaReads || !TimingReads(t.timing) || EventsRaise(t.events) || !t.classReads)
  }

  function TransitionErrors(t: Trial): seq<Error> {
    if |t.events| < 2 then [TooFewEvents]
    else
      var spawn, reap := IndexOf(t.events, AttemptSpawn), IndexOf(t.events, ProcessReap);
      EventPass(t.events, |t.events|) + When(spawn.None?, MissingSpawn)
        + When(spawn.Some? && reap.Some? && reap.value < spawn.value, ReapBeforeSpawn)
  }

  // ----- classification -----

  function ClassErrors(t: Trial): seq<Error> {
    When(t.terminal.OtherTerminal? && !t.terminal.legal, IllegalTerminal)
      + When(t.validity.OtherValidity?, IllegalValidity)
      + When(t.vote.OtherVote?, IllegalVote)
      + When(t.c1.Present? && t.validity == VALID, C1Conflict)
      + When(t.c2.Present? && t.validity == VALID, C2Conflict)
      + When(t.c3.Present? && t.validity == VALID && t.terminal == SUPERVISOR_OVERALL_TIMEOUT, C3Conflict)
      + When((t.c1.Unknown? || t.c2.Unknown? || t.c3.Unknown?) && t.validity == VALID, UnknownConflict)
  }

  function VoteErrors(t: Trial): seq<Error> {
    if t.vote == COMPATIBLE_VOTE then
      When(t.validity != VALID, CompatibleNeedsValid)
      + When(t.terminal != QUALIFYING_COMPLETION, CompatibleNeedsCompletion)
      + When(Duration(t) > 2195.0, CompatibleOverHeadroom)
    else if t.vote == INCOMPATIBLE_VOTE then
      When(t.validity != VALID, IncompatibleNeedsValid)
      + When(t.terminal != SUPERVISOR_OVERALL_TIMEOUT, IncompatibleNeedsTimeout)
      + When(Duration(t) < 2200.0, IncompatibleUnderTimeout)
    else []
  }

  function Errors(t: Trial): seq<Error> {
    if !t.rootComplete then [MissingRootField]
    else
      When(t.schemaProblems > 0, SchemaProblem) + When(t.condition.OtherCondition?, IllegalCondition)
      + TimingErrors(t.timing) + TransitionErrors(t) + ClassErrors(t) + VoteErrors(t)
  }

  // ----- the validator -----

  lemma FoundAtEvent(es: seq<Event>, i: nat, prevSeq: real, prevTime: real)
    requires i < |es|
    requires prevSeq == (if i == 0 then -1.0 else Value(es[i - 1].sequence))
    requires prevTime == (if i == 0 then -1.0 else Value(es[i - 1].time))
    ensures EventErrors(es, i) ==
      When(!es[i].complete || es[i].sequence.Absent? || es[i].time.Absent?, EventIncomplete(i))
      + When(Value(es[i].sequence) <= prevSeq, SequenceNotIncreasing(i))
      + When(Value(es[i].time) < prevTime, TimeNotMonotonic(i))
      + When(!es[i].bound, IdentityMismatch(i))
      + When(es[i].kind.UnknownKind?, UnknownEvent(i))
  {
    hide When, Value;
  }

  lemma NoIndex(kind: EventKind)
    ensures IndexOf([], kind) == None
  {
  }

  lemma IndexStep(es: seq<Event>, i: nat, kind: EventKind)
    requires i < |es|
    ensures
      var before := IndexOf(es[..i], kind);
      IndexOf(es[..i + 1], kind) == if before.Some? then before else if es[i].kind == kind then Some(i) else None
  {
    assert es[..i + 1][..i] == es[..i];
  }

  /** The loop over the events; `raised` ends it at the first event that cannot be read. */
  method CheckEvents(es: seq<Event>)
    returns (raised: bool, errors: seq<Error>, spawn: Option<nat>, reap: Option<nat>)
    ensures raised <==> !AllRead(es)
    ensures !raised ==> errors == EventPass(es, |es|)
    ensures !raised ==> spawn == IndexOf(es, AttemptSpawn) && reap == IndexOf(es, ProcessReap)
  {
    hide When, IndexOf, EventErrors, Value, ReadsAsNumber;
    raised, errors, spawn, reap := false, [], None, None;
    var prevSeq, prevTime := -1.0, -1.0;
    assert es[..0] == [];
    NoIndex(AttemptSpawn);
    NoIndex(ProcessReap);
    for i := 0 to |es|
      invariant !raised && forall j | 0 <= j < i :: EventReads(es[j])
      invariant errors == EventPass(es, i)
      invariant prevSeq == (if i == 0 then -1.0 else Value(es[i - 1].sequence))
      invariant prevTime == (if i == 0 then -1.0 else Value(es[i - 1].time))
      invariant spawn == IndexOf(es[..i], AttemptSpawn) && reap == IndexOf(es[..i], ProcessReap)
    {
      var e := es[i];
      if !e.isObject || !ReadsAsNumber(e.sequence) || !ReadsAsNumber(e.time) || e.kind.Unhashable? {
        raised := true;
        return;
      }
      if !e.kind.UnknownKind? && !e.payloadReads {
        raised := true;
        return;
      }
      IndexStep(es, i, AttemptSpawn);
      IndexStep(es, i, ProcessReap);
      var found := When(!e.complete || e.sequence.Absent? || e.time.Absent?, EventIncomplete(i))
        + When(Value(e.sequence) <= prevSeq, SequenceNotIncreasing(i))
        + When(Value(e.time) < prevTime, TimeNotMonotonic(i))
        + When(!e.bound, IdentityMismatch(i))
        + When(e.kind.UnknownKind?, UnknownEvent(i));
      FoundAtEvent(es, i, prevSeq, prevTime);
      errors := errors + found;
      prevSeq, prevTime := Value(e.sequence), Value(e.time);
      if spawn.None? && e.kind == AttemptSpawn {
        spawn := Some(i);
      }
      if reap.None? && e.kind == ProcessReap {
        reap := Some(i);
      }
    }
    assert es[..|es|] == es;
  }

  /** The transition rules, or nothing when one of them raises. */
  method CheckTransitions(t: Trial) returns (r: Option<seq<Error>>)
    ensures r == if EventsRaise(t.events) then None else Some(TransitionErrors(t))
  {
    hide EventPass, IndexOf, AllRead;
    if |t.events| < 2 {
      return Some([TooFewEvents]);
    }
    var raised, errors, spawn, reap := CheckEvents(t.events);
    if raised {
      return None;
    }
    if spawn.None? {
      errors := errors + [MissingSpawn];
    }
    if reap.Some? {
      if spawn.None? {
        return None;
      }
      if reap.value < spawn.value {
        errors := errors + [ReapBeforeSpawn];
      }
    }
    assert errors == TransitionErrors(t);
    r := Some(errors);
  }

  /** The validator's error list, or nothing when it raises. */
  method Validate(t: Trial) returns (r: Option<seq<Error>>)
    ensures r == if Raises(t) then None else Some(Errors(t))
  {
    hide TimingReads, TimingErrors, EventsRaise, TransitionErrors, ClassErrors, VoteErrors;
    if !t.rootComplete {
      return Some([MissingRootField]);
    }
    if !t.schemaReads {
      return None;
    }
    var errors := When(t.schemaProblems > 0, SchemaProblem) + When(t.condition.OtherCondition?, IllegalCondition);
    var timing := CheckTiming(t.timing);
    if timing.None? {
      return None;
    }
    var transitions := CheckTransitions(t);
    if transitions.None? || !t.classReads {
      return None;
    }
    r := Some(errors + timing.value + transitions.value + ClassErrors(t) + VoteErrors(t));
  }

  // ----- consistent records -----

  /** Integer stamps, numeric fields all there, in agreement with one another within their tolerances. */
  predicate TimingOk(m: Timing) {
    && TimingReads(m)
    && IsIntegral(m.startNs) && IsIntegral(m.endNs) && 0.0 <= Value(m.startNs) <= Value(m.endNs)
    && IsNumber(m.elapsedNs) && IsNumber(m.elapsedSeconds) && IsNumber(m.headroomSeconds) && IsNumber(m.supervisorSeconds)
    && var ns := Value(m.endNs) - Value(m.startNs);
       var seconds := ns / 1_000_000_000.0;
       && Value(m.elapsedNs) == ns
       && -0.000001 <= Value(m.elapsedSeconds) - seconds <= 0.000001
       && -0.000001 <= Value(m.headroomSeconds) - (2200.0 - seconds) <= 0.000001
       && -1.1 <= Value(m.supervisorSeconds) - seconds <= 1.1
  }

  predicate KnownEvent(e: Event) {
    e.complete && !e.sequence.Absent? && !e.time.Absent? && e.bound && !e.kind.UnknownKind?
  }

  /** Events in order, all bound and known, with a spawn in front of any reap. */
  ghost predicate EventsOk(es: seq<Event>) {
    && |es| >= 2 && AllRead(es) && (forall i | 0 <= i < |es| :: KnownEvent(es[i]))
    && Value(es[0].sequence) > -1.0 && Value(es[0].time) >= -1.0
    && InOrder(es)
    && (exists i :: 0 <= i < |es| && es[i].kind == AttemptSpawn)
    && (forall j | 0 <= j < |es| && es[j].kind == ProcessReap ::
          exists i :: 0 <= i < j && es[i].kind == AttemptSpawn)
  }

  /** Sequence numbers rise and times do not fall, between any two events. */
  ghost predicate InOrder(es: seq<Event>) {
    forall i, j | 0 <= i < j < |es| :: Earlier(es[i], es[j])
  }

  predicate Earlier(a: Event, b: Event) {
    Value(a.sequence) < Value(b.sequence) && Value(a.time) <= Value(b.time)
  }

  predicate ClassOk(t: Trial) {
    var seconds := (Value(t.timing.endNs) - Value(t.timing.startNs)) / 1_000_000_000.0;
    && !t.condition.OtherCondition? && (t.terminal.OtherTerminal? ==> t.terminal.legal)
    && !t.validity.OtherValidity? && !t.vote.OtherVote?
    && (t.validity == VALID ==>
          && !t.c1.Present? && !t.c2.Present?
          && (t.terminal == SUPERVISOR_OVERALL_TIMEOUT ==> !t.c3.Present?)
          && !t.c1.Unknown? && !t.c2.Unknown? && !t.c3.Unknown?)
    && (t.vote == COMPATIBLE_VOTE ==>
          t.validity == VALID && t.terminal == QUALIFYING_COMPLETION && seconds <= 2195.0)
    && (t.vote == INCOMPATIBLE_VOTE ==>
          t.validity == VALID && t.terminal == SUPERVISOR_OVERALL_TIMEOUT && seconds >= 2200.0)
  }

  ghost predicate Consistent(t: Trial) {
    && t.rootComplete && t.schemaReads && t.schemaProblems == 0 && t.classReads
    && TimingOk(t.timing) && EventsOk(t.events) && ClassOk(t)
  }

  lemma {:induction false} EventPassEmpty(es: seq<Event>, k: nat)
    requires k <= |es|
    ensures EventPass(es, k) == [] <==> forall i | 0 <= i < k :: EventErrors(es, i) == []
  {
    hide EventErrors;
    if k > 0 {
      EventPassEmpty(es, k - 1);
    }
  }

  predicate StepOk(es: seq<Event>, i: nat)
    requires i < |es|
  {
    && KnownEvent(es[i])
    && Value(es[i].sequence) > (if i == 0 then -1.0 else Value(es[i - 1].sequence))
    && Value(es[i].time) >= (if i == 0 then -1.0 else Value(es[i - 1].time))
  }

  lemma StepExactly(es: seq<Event>, i: nat)
    requires i < |es|
    ensures EventErrors(es, i) == [] <==> StepOk(es, i)
  {
  }

  lemma {:induction false} Chained(es: seq<Event>, i: nat, j: nat)
    requires i < j < |es| && forall k | 0 <= k < |es| :: StepOk(es, k)
    ensures Earlier(es[i], es[j])
  {
    assert StepOk(es, j);
    if i < j - 1 {
      Chained(es, i, j - 1);
    }
  }

  lemma StepsInOrder(es: seq<Event>)
    requires es != []
    ensures (forall i | 0 <= i < |es| :: StepOk(es, i)) <==>
      && (forall i | 0 <= i < |es| :: KnownEvent(es[i]))
      && Value(es[0].sequence) > -1.0 && Value(es[0].time) >= -1.0 && InOrder(es)
  {
    if forall i | 0 <= i < |es| :: StepOk(es, i) {
      hide KnownEvent, Earlier;
      forall i, j | 0 <= i < j < |es| ensures Earlier(es[i], es[j]) {
        Chained(es, i, j);
      }
      assert StepOk(es, 0);
      forall i | 0 <= i < |es| ensures KnownEvent(es[i]) {
        assert StepOk(es, i);
      }
    }
    if (forall i | 0 <= i < |es| :: KnownEvent(es[i])) && Value(es[0].sequence) > -1.0 && Value(es[0].time) >= -1.0 && InOrder(es) {
      forall i | 0 <= i < |es| ensures StepOk(es, i) {
        assert i > 0 ==> Earlier(es[i - 1], es[i]);
        hide InOrder;
      }
    }
  }

  lemma StepsExactly(es: seq<Event>)
    requires |es| >= 2
    ensures EventPass(es, |es|) == [] <==>
      && (forall i | 0 <= i < |es| :: KnownEvent(es[i]))
      && Value(es[0].sequence) > -1.0 && Value(es[0].time) >= -1.0 && InOrder(es)
  {
    hide EventPass, EventErrors, KnownEvent, StepOk, InOrder;
    EventPassEmpty(es, |es|);
    StepsInOrder(es);
    forall i | 0 <= i < |es| ensures EventErrors(es, i) == [] <==> StepOk(es, i) {
      StepExactly(es, i);
    }
  }

  lemma SpawnAndReapExactly(es: seq<Event>)
    ensures
      var spawn, reap := IndexOf(es, AttemptSpawn), IndexOf(es, ProcessReap);
      (spawn.Some? && (reap.Some? ==> spawn.value < reap.value)) <==>
        && (exists i :: 0 <= i < |es| && es[i].kind == AttemptSpawn)
        && (forall j | 0 <= j < |es| && es[j].kind == ProcessReap :: exists i :: 0 <= i < j && es[i].kind == AttemptSpawn)
  {
    var spawn, reap := IndexOf(es, AttemptSpawn), IndexOf(es, ProcessReap);
    hide IndexOf;
    if spawn.Some? && (reap.Some? ==> spawn.value < reap.value) {
      forall j | 0 <= j < |es| && es[j].kind == ProcessReap
        ensures exists i :: 0 <= i < j && es[i].kind == AttemptSpawn
      {
        assert es[spawn.value].kind == AttemptSpawn;
      }
    }
  }

  lemma TransitionsExactly(t: Trial)
    ensures !EventsRaise(t.events) && TransitionErrors(t) == [] <==> EventsOk(t.events)
  {
    hide EventPass, IndexOf, AllRead, KnownEvent, InOrder;
    if |t.events| >= 2 {
      StepsExactly(t.events);
      SpawnAndReapExactly(t.events);
    }
  }

  lemma TimingExactly(m: Timing)
    ensures TimingReads(m) && TimingErrors(m) == [] <==> TimingOk(m)
  {
    hide Floats, Value;
  }

  /** The validator returns no error exactly for the consistent records. */
  lemma ValidExactly(t: Trial)
    ensures !Raises(t) && Errors(t) == [] <==> Consistent(t)
  {
    TransitionsExactly(t);
    TimingExactly(t.timing);
    hide TimingOk, TimingReads, TimingErrors, EventsOk, EventsRaise, TransitionErrors, Value;
    assert When(t.condition.OtherCondition?, IllegalCondition) + ClassErrors(t) + VoteErrors(t) == [] <==> ClassOk(t);
  }

  // ----- when the validator raises -----

  /** Python cannot compute with null or text. */
  predicate NoNumber(v: JVal) {
    v.Null? || v.Str?
  }

  /** The value is an integer of a size no double reaches. */
  predicate TooLarge(v: JVal) {
    v.Int? && !Floats(v.n as real)
  }

  predicate TimingRaises(m: Timing) {
    || !m.isObject
    || NoNumber(m.startNs) || NoNumber(m.endNs)
    || NoNumber(m.elapsedSeconds) || NoNumber(m.headroomSeconds) || NoNumber(m.supervisorSeconds)
    || TooLarge(m.elapsedSeconds) || TooLarge(m.headroomSeconds) || TooLarge(m.supervisorSeconds)
    || (if m.startNs.Real? || m.endNs.Real? then TooLarge(m.startNs) || TooLarge(m.endNs)
        else !Floats(Value(m.endNs) - Value(m.startNs)))
  }

  predicate EventRaises(e: Event) {
    || !e.isObject || NoNumber(e.sequence) || NoNumber(e.time) || e.kind.Unhashable?
    || (!e.kind.UnknownKind? && !e.payloadReads)
  }

  lemma TimingRaisesExactly(m: Timing)
    ensures TimingRaises(m) <==> !TimingReads(m)
  {
    hide Floats;
  }

  /**
   The validator raises exactly on a record with every root field in which the fixed fields or the
   classification cannot be read; the timing is no object, or a stamp or a field of seconds is null, text
   or out of range; one of two or more events is no object, has null or text for its sequence or time, an
   unhashable kind or a payload that cannot be searched; or two or more events hold a reap but no spawn.
   */
  lemma RaisesExactly(t: Trial)
    ensures Raises(t) <==>
      && t.rootComplete
      && (|| !t.schemaReads || !t.classReads || TimingRaises(t.timing)
          || (|t.events| >= 2 && exists i :: 0 <= i < |t.events| && EventRaises(t.events[i]))
          || (&& |t.events| >= 2
              && (exists i :: 0 <= i < |t.events| && t.events[i].kind == ProcessReap)
              && (forall i | 0 <= i < |t.events| :: t.events[i].kind != AttemptSpawn)))
  {
    TimingRaisesExactly(t.timing);
    forall e: Event ensures EventRaises(e) <==> !EventReads(e) {
    }
    hide IndexOf, TimingReads, TimingRaises, EventReads, EventRaises;
  }

  /** What numbers a field is read as. */
  lemma ValuesRead(n: int, r: real)
    ensures Value(Int(n)) == n as real && Value(Real(r)) == r
    ensures Value(Bool(true)) == 1.0 && Value(Bool(false)) == 0.0 == Value(Absent)
    ensures EqualsInt(Real(r), n) <==> Value(Real(r)) == Value(Int(n))
  {
  }

  /** Integer stamps close to each other and numeric seconds are always read. */
  lemma PlainTimingReads(m: Timing)
    requires m.isObject && IsIntegral(m.startNs) && IsIntegral(m.endNs) && Floats(Span(m))
    requires m.elapsedSeconds.Real? && m.headroomSeconds.Real? && m.supervisorSeconds.Real?
    ensures TimingReads(m)
  {
  }

  const SPAWNED: Event := Event(true, Int(0), Int(0), AttemptSpawn, true, true, true)

  const REAPED: Event := Event(true, Int(1), Int(0), ProcessReap, true, true, true)

  const OTHER_START: Event := Event(true, Int(0), Int(0), OtherKnown("START"), true, true, true)

  const INSTANT: Timing := Timing(true, Int(0), Int(0), Int(0), Real(0.0), Real(2200.0), Real(0.0))

  const SOUND: Trial := Trial(
    "e", "s", "b", "t", true, true, 0, SETTLED_NOMINAL, INSTANT, [SPAWNED, REAPED], true,
    QUALIFYING_COMPLETION, VALID, NO_VOTE, OtherClass("C1"), OtherClass("C2"), OtherClass("C3"))

  lemma InstantIsOk()
    ensures TimingOk(INSTANT)
  {
    ZeroFloats();
    hide Floats;
    assert Span(INSTANT) == 0.0;
    PlainTimingReads(INSTANT);
  }

  lemma SpawnAndReapAreOk()
    ensures EventsOk([SPAWNED, REAPED])
  {
    var es := [SPAWNED, REAPED];
    assert es[0] == SPAWNED && es[1] == REAPED;
    assert forall i | 0 <= i < |es| :: es[i] == SPAWNED || es[i] == REAPED;
    assert es[0].kind == AttemptSpawn;
  }

  lemma SoundIsConsistent()
    ensures Consistent(SOUND)
  {
    hide TimingOk, EventsOk;
    InstantIsOk();
    SpawnAndReapAreOk();
  }

  /** A consistent record raises once its spawn is another event: the lookup of the spawn fails. */
  lemma ReapAloneRaises()
    ensures Consistent(SOUND) && !Raises(SOUND)
    ensures Raises(SOUND.(events := [OTHER_START, REAPED]))
  {
    SoundIsConsistent();
    ValidExactly(SOUND);
    hide Raises, Consistent;
    var t := SOUND.(events := [OTHER_START, REAPED]);
    RaisesExactly(t);
    assert t.events[0] == OTHER_START && t.events[1] == REAPED;
  }

  /** It raises as well with a null stamp, which the check in front of it has just reported. */
  lemma NullStampRaises()
    ensures Raises(SOUND.(timing := INSTANT.(startNs := Null))) && BadStamp(Null)
    ensures forall m: Timing | m.startNs == Null :: !TimingReads(m)
  {
  }

  /** An absent stamp, a boolean and a float are read; a float is reported. */
  lemma OtherStampsDoNot()
    ensures TimingReads(INSTANT.(startNs := Absent)) && TimingReads(INSTANT.(startNs := Bool(false)))
    ensures TimingReads(INSTANT.(startNs := Real(0.0))) && BadStamp(Real(0.0))
    ensures !BadStamp(Absent) && !BadStamp(Bool(false))
  {
    ZeroFloats();
    hide Floats;
    assert Span(INSTANT.(startNs := Absent)) == 0.0 && Span(INSTANT.(startNs := Bool(false))) == 0.0;
  }
}
