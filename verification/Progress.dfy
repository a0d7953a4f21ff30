/**
  The accepted-work projection of one Work Challenge, fed by at-least-once, reordered and possibly
  conflicting deliveries.  `Ledger` is the value of the projection and `Accept` what one delivery
  does to it; the class ChallengeProgress in ChallengeProgress.dfy computes exactly that.
 */
module Progress {
  import opened Wrappers
  import opened Uint256Arithmetic
  import opened Work

  datatype NetworkTargetOutcome = BelowNetworkTarget | NetworkTargetMet

  /** Worker telemetry, never authoritative. */
  datatype WorkerReport = WorkerReport(reportedHashes: string, reportedHashrate: real, leadingZeroBits: nat)

  datatype AcceptedWorkEvent = AcceptedWorkEvent(
    eventId: string,
    sessionId: string,
    target: AssignedTarget,
    receivedAt: nat,
    fingerprint: string,
    outcome: NetworkTargetOutcome,
    maybeReport: Option<WorkerReport>)

  datatype Disposition = Credited | DuplicateShare | ChallengeSatisfied

  datatype Acknowledgement = Acknowledgement(
    eventId: string,
    sessionId: string,
    receivedAt: nat,
    outcome: NetworkTargetOutcome,
    disposition: Disposition,
    maybeCredited: Option<CreditedWork>,
    verifiedProgress: Uint256,
    requirement: CreditedWork,
    intentCreated: bool)

  datatype EventRecord = EventRecord(event: AcceptedWorkEvent, acknowledgement: Acknowledgement)

  datatype ProgressError =
    | DuplicateWorkSession
    | UnknownWorkSession
    | ConflictingEventReplay
    | DuplicateChallenge
    | UnknownChallenge
    | InvalidWork(error: WorkError)

  datatype Ledger = Ledger(
    requirement: CreditedWork,
    progress: Uint256,
    sessions: set<string>,
    records: map<string, EventRecord>,
    fingerprints: set<string>)

  datatype Transition = Transition(
    disposition: Disposition,
    maybeCredited: Option<CreditedWork>,
    verifiedProgress: Uint256,
    satisfied: bool,
    intentCreated: bool)

  predicate MatchesAuthoritativeReplay(e: AcceptedWorkEvent, f: AcceptedWorkEvent) {
    && e.eventId == f.eventId
    && e.sessionId == f.sessionId
    && e.target == f.target
    && e.receivedAt == f.receivedAt
    && e.fingerprint == f.fingerprint
    && e.outcome == f.outcome
  }

  ghost predicate Meets(progress: Uint256, requirement: Uint256) {
    Value(progress) >= Value(requirement)
  }

  ghost predicate Satisfied(l: Ledger) {
    Meets(l.progress, l.requirement)
  }

  /** Work credited for an event, as a four-limb integer. */
  ghost function CreditOf(e: AcceptedWorkEvent): (w: CreditedWork)
    ensures Value(w) == ExpectedHashes(TargetValue(e.target))
    ensures 1 <= Value(w) <= TWO_256 / 2
  {
    CreditIsNonZero(e.target);
    Constants();
    OfValue(ExpectedHashes(TargetValue(e.target)))
  }

  /** What one fresh event does to progress; an error when the sum leaves 256 bits. */
  ghost function TransitionOf(progress: Uint256, requirement: CreditedWork, credit: CreditedWork, inserted: bool)
    : Result<Transition, ProgressError>
  {
    if Meets(progress, requirement) then
      Ok(Transition(ChallengeSatisfied, None, progress, true, false))
    else if !inserted then
      Ok(Transition(DuplicateShare, None, progress, false, false))
    else if Value(progress) + Value(credit) >= TWO_256 then
      Err(InvalidWork(CreditedWorkOverflow))
    else
      var sum := OfValue(Value(progress) + Value(credit));
      Ok(Transition(Credited, Some(credit), sum, Meets(sum, requirement), Meets(sum, requirement)))
  }

  ghost function InitialLedger(requirement: CreditedWork): Ledger {
    Ledger(requirement, ZERO, {}, map[], {})
  }

  ghost function Register(l: Ledger, session: string): (Ledger, Result<(), ProgressError>) {
    if session in l.sessions then (l, Err(DuplicateWorkSession))
    else (l.(sessions := l.sessions + {session}), Ok(()))
  }

  /** One delivery, with the caller's word on whether the share is a duplicate elsewhere. */
  ghost function Accept(l: Ledger, e: AcceptedWorkEvent, globallyDuplicate: bool)
    : (Ledger, Result<Acknowledgement, ProgressError>)
  {
    if e.eventId in l.records then
      var record := l.records[e.eventId];
      if MatchesAuthoritativeReplay(record.event, e) then (l, Ok(record.acknowledgement))
      else (l, Err(ConflictingEventReplay))
    else if e.sessionId !in l.sessions then
      (l, Err(UnknownWorkSession))
    else
      var duplicate := globallyDuplicate || e.fingerprint in l.fingerprints;
      match TransitionOf(l.progress, l.requirement, CreditOf(e), !duplicate)
      case Err(error) => (l, Err(error))
      case Ok(t) =>
        var ack := Acknowledgement(
          e.eventId, e.sessionId, e.receivedAt, e.outcome,
          t.disposition, t.maybeCredited, t.verifiedProgress, l.requirement, t.intentCreated);
        (l.(progress := t.verifiedProgress,
            records := l.records[e.eventId := EventRecord(e, ack)],
            fingerprints := l.fingerprints + {e.fingerprint}),
         Ok(ack))
  }

  // ---------------------------------------------------------------- runs

  datatype Operation =
    | RegisterSession(session: string)
    | Deliver(event: AcceptedWorkEvent, globallyDuplicate: bool)

  datatype Outcome = Registered(r: Result<(), ProgressError>) | Answered(a: Result<Acknowledgement, ProgressError>)

  ghost function Apply(l: Ledger, op: Operation): (Ledger, Outcome) {
    match op
    case RegisterSession(s) => var (l', r) := Register(l, s); (l', Registered(r))
    case Deliver(e, d) => var (l', a) := Accept(l, e, d); (l', Answered(a))
  }

  ghost function Run(l: Ledger, ops: seq<Operation>): Ledger {
    if ops == [] then l else Apply(Run(l, ops[..|ops| - 1]), ops[|ops| - 1]).0
  }

  /** The answers of a run, in order. */
  ghost function Answers(l: Ledger, ops: seq<Operation>): seq<Outcome> {
    if ops == [] then []
    else Answers(l, ops[..|ops| - 1]) + [Apply(Run(l, ops[..|ops| - 1]), ops[|ops| - 1]).1]
  }

  // ---------------------------------------------------------------- finite totals

  ghost function Total(m: map<string, nat>): nat {
    if m == map[] then 0 else
      var k :| k in m;
      m[k] + Total(m - {k})
  }

  /** A total can be taken in any order. */
  lemma {:induction false} TotalRemove(m: map<string, nat>, k: string)
    requires k in m
    ensures Total(m) == m[k] + Total(m - {k})
    decreases |m|
  {
    var j :| j in m && Total(m) == m[j] + Total(m - {j});
    if j != k {
      MapShrinks(m, j);
      MapShrinks(m, k);
      TotalRemove(m - {j}, k);
      TotalRemove(m - {k}, j);
      assert m - {j} - {k} == m - {k} - {j};
    }
  }

  lemma MapShrinks(m: map<string, nat>, k: string)
    requires k in m
    ensures |m - {k}| < |m|
  {
    assert (m - {k}).Keys == m.Keys - {k};
  }

  lemma TotalInsert(m: map<string, nat>, k: string, v: nat)
    requires k !in m
    ensures Total(m[k := v]) == Total(m) + v
  {
    TotalRemove(m[k := v], k);
    assert m[k := v] - {k} == m;
  }

  // ---------------------------------------------------------------- what every run keeps

  /** Credits by event id. */
  ghost function CreditedRecords(records: map<string, EventRecord>): map<string, nat> {
    map id | id in records && records[id].acknowledgement.disposition == Credited
      :: Value(CreditOf(records[id].event))
  }

  ghost predicate IntentRecord(l: Ledger, id: string) {
    id in l.records && l.records[id].acknowledgement.intentCreated
  }

  /** A record keeps its own delivery, and its acknowledgement tells what was credited. */
  ghost predicate RecordFaithful(l: Ledger, id: string)
    requires id in l.records
  {
    var EventRecord(e, a) := l.records[id];
    && e.eventId == id && e.fingerprint in l.fingerprints && e.sessionId in l.sessions
    && a.eventId == id && a.sessionId == e.sessionId && a.receivedAt == e.receivedAt && a.outcome == e.outcome
    && a.requirement == l.requirement
    && Value(a.verifiedProgress) <= Value(l.progress)
    && a.maybeCredited == (if a.disposition == Credited then Some(CreditOf(e)) else None)
    && (a.intentCreated ==> a.disposition == Credited)
  }

  ghost predicate Consistent(l: Ledger) {
    && (forall id :: id in l.records ==> RecordFaithful(l, id))
    && Value(l.progress) == Total(CreditedRecords(l.records))
    && (forall i, j ::
          i in l.records && j in l.records && i != j
          && l.records[i].acknowledgement.disposition == Credited
          && l.records[j].acknowledgement.disposition == Credited
          ==> l.records[i].event.fingerprint != l.records[j].event.fingerprint)
    && OneIntent(l)
  }

  /** Exactly one record created the issuance intent if the challenge is satisfied, none otherwise. */
  ghost predicate OneIntent(l: Ledger) {
    && (Satisfied(l) <==> exists id :: IntentRecord(l, id))
    && (forall i, j :: IntentRecord(l, i) && IntentRecord(l, j) ==> i == j)
  }

  lemma InitialConsistent(requirement: CreditedWork)
    ensures Consistent(InitialLedger(requirement)) && !Satisfied(InitialLedger(requirement))
  {
    Constants();
    if Value(requirement) == 0 {
      ValueInjective(requirement, ZERO);
    }
    assert CreditedRecords(map[]) == map[];
  }

  /** Any refusal leaves the projection as it was. */
  lemma ErrorChangesNothing(l: Ledger, op: Operation)
    ensures
      var (l', out) := Apply(l, op);
      (out.Registered? && out.r.Err?) || (out.Answered? && out.a.Err?) ==> l' == l
  {
  }

  /** How a delivery that is recorded changes the projection. */
  ghost predicate Recorded(l: Ledger, e: AcceptedWorkEvent, l': Ledger) {
    && e.eventId !in l.records && e.sessionId in l.sessions
    && e.eventId in l'.records && l'.records == l.records[e.eventId := l'.records[e.eventId]]
    && l'.requirement == l.requirement && l'.sessions == l.sessions
    && l'.fingerprints == l.fingerprints + {e.fingerprint}
    && var EventRecord(event, a) := l'.records[e.eventId];
    && event == e
    && a == Acknowledgement(e.eventId, e.sessionId, e.receivedAt, e.outcome, a.disposition, a.maybeCredited,
                            l'.progress, l.requirement, !Satisfied(l) && Satisfied(l'))
    && a.maybeCredited == (if a.disposition == Credited then Some(CreditOf(e)) else None)
    && Value(l'.progress) == Value(l.progress) + (if a.disposition == Credited then Value(CreditOf(e)) else 0)
    && (a.disposition == Credited ==> e.fingerprint !in l.fingerprints)
    && (a.intentCreated ==> a.disposition == Credited)
  }

  lemma AcceptRecords(l: Ledger, e: AcceptedWorkEvent, d: bool)
    ensures Accept(l, e, d).0 == l || Recorded(l, e, Accept(l, e, d).0)
  {
  }

  /** A session is registered once, and then known. */
  lemma RegisterExactly(l: Ledger, session: string)
    ensures
      var (l', r) := Register(l, session);
      && r == (if session in l.sessions then Err(DuplicateWorkSession) else Ok(()))
      && l' == l.(sessions := l'.sessions)
      && forall s :: s in l'.sessions <==> s in l.sessions || s == session
  {
  }

  /**
    What becomes of an event not on record yet: nothing from an unknown session; no credit once the
    requirement is met; no credit for a share seen here or known elsewhere; an overflow refused; its
    expected hashes credited otherwise.
   */
  lemma DispositionExactly(l: Ledger, e: AcceptedWorkEvent, globallyDuplicate: bool)
    requires e.eventId !in l.records
    ensures
      var (l', r) := Accept(l, e, globallyDuplicate);
      var met := Value(l.progress) >= Value(l.requirement);
      var seen := globallyDuplicate || e.fingerprint in l.fingerprints;
      var work := ExpectedHashes(TargetValue(e.target));
      && (r == Err(UnknownWorkSession) <==> e.sessionId !in l.sessions)
      && (e.sessionId in l.sessions ==>
            && (r == Err(InvalidWork(CreditedWorkOverflow)) <==> !met && !seen && Value(l.progress) + work >= TWO_256)
            && (r.Ok? <==> !(!met && !seen && Value(l.progress) + work >= TWO_256)))
      && (r.Ok? ==>
            && r.value.disposition == (if met then ChallengeSatisfied else if seen then DuplicateShare else Credited)
            && Value(l'.progress) == Value(l.progress) + (if met || seen then 0 else work)
            && r.value.verifiedProgress == l'.progress
            && r.value.intentCreated == (!met && Value(l'.progress) >= Value(l.requirement))
            && l'.records == l.records[e.eventId := EventRecord(e, r.value)]
            && l'.fingerprints == l.fingerprints + {e.fingerprint} && l'.sessions == l.sessions)
  {
    hide Value, ExpectedHashes, TargetValue;
  }

  /** A redelivery matches exactly when it differs from the first delivery in its worker report at most. */
  lemma ReplayMatchesExactly(e: AcceptedWorkEvent, f: AcceptedWorkEvent)
    ensures MatchesAuthoritativeReplay(e, f) <==> e.(maybeReport := None) == f.(maybeReport := None)
  {
  }

  lemma AcceptKeepsConsistent(l: Ledger, e: AcceptedWorkEvent, d: bool)
    requires Consistent(l)
    ensures Consistent(Accept(l, e, d).0)
  {
    var l' := Accept(l, e, d).0;
    AcceptRecords(l, e, d);
    if l' != l {
      RecordingKeepsConsistent(l, e, l');
    }
  }

  lemma RecordingKeepsConsistent(l: Ledger, e: AcceptedWorkEvent, l': Ledger)
    requires Consistent(l) && Recorded(l, e, l')
    ensures Consistent(l')
  {
    hide OneIntent, Total, CreditOf, Satisfied, CreditedRecords;
    CreditsAfter(l, l', e.eventId);
    SatisfactionStays(l, e, l');
    IntentsAfter(l, l', e.eventId);
    forall k | k in l'.records ensures RecordFaithful(l', k) {
      assert k != e.eventId ==> RecordFaithful(l, k);
    }
    forall i, j |
      i in l'.records && j in l'.records && i != j
      && l'.records[i].acknowledgement.disposition == Credited
      && l'.records[j].acknowledgement.disposition == Credited
      ensures l'.records[i].event.fingerprint != l'.records[j].event.fingerprint
    {
      assert i != e.eventId ==> RecordFaithful(l, i);
      assert j != e.eventId ==> RecordFaithful(l, j);
    }
  }

  lemma CreditsAfter(l: Ledger, l': Ledger, id: string)
    requires id !in l.records && id in l'.records && l'.records == l.records[id := l'.records[id]]
    ensures Total(CreditedRecords(l'.records)) == Total(CreditedRecords(l.records))
      + if l'.records[id].acknowledgement.disposition == Credited then Value(CreditOf(l'.records[id].event)) else 0
  {
    hide Total, CreditOf, Value;
    var m, m' := CreditedRecords(l.records), CreditedRecords(l'.records);
    if l'.records[id].acknowledgement.disposition == Credited {
      var v := Value(CreditOf(l'.records[id].event));
      assert m' == m[id := v];
      TotalInsert(m, id, v);
    } else {
      assert m' == m;
    }
  }

  lemma SatisfactionStays(l: Ledger, e: AcceptedWorkEvent, l': Ledger)
    requires Recorded(l, e, l')
    ensures Satisfied(l) ==> Satisfied(l')
    ensures l'.records[e.eventId].acknowledgement.intentCreated <==> (!Satisfied(l) && Satisfied(l'))
  {
    hide Value;
  }

  lemma IntentsAfter(l: Ledger, l': Ledger, id: string)
    requires OneIntent(l) && id !in l.records && id in l'.records && l'.records == l.records[id := l'.records[id]]
    requires l'.records[id].acknowledgement.intentCreated <==> (!Satisfied(l) && Satisfied(l'))
    requires Satisfied(l) ==> Satisfied(l')
    ensures OneIntent(l')
  {
    hide Satisfied;
    forall k ensures IntentRecord(l', k) <==> (if k == id then l'.records[id].acknowledgement.intentCreated else IntentRecord(l, k)) {
    }
    if Satisfied(l) {
      var k :| IntentRecord(l, k);
      assert IntentRecord(l', k);
    } else if Satisfied(l') {
      assert IntentRecord(l', id);
    }
  }

  lemma ApplyKeepsConsistent(l: Ledger, op: Operation)
    requires Consistent(l)
    ensures Consistent(Apply(l, op).0)
  {
    match op
    case RegisterSession(s) =>
      hide Total, CreditOf, Value;
      var l' := Apply(l, op).0;
      forall k | k in l'.records ensures RecordFaithful(l', k) {
        assert RecordFaithful(l, k);
      }
      forall k ensures IntentRecord(l', k) <==> IntentRecord(l, k) {
      }
      if Satisfied(l) {
        var k :| IntentRecord(l, k);
        assert IntentRecord(l', k);
      }
    case Deliver(e, d) =>
      AcceptKeepsConsistent(l, e, d);
  }

  /**
    In every run: progress is the sum of the credits on record, no share is credited twice, and
    exactly one record created the issuance intent if the challenge is satisfied, none otherwise.
   */
  lemma {:induction false} EveryRunConsistent(requirement: CreditedWork, ops: seq<Operation>)
    ensures Consistent(Run(InitialLedger(requirement), ops))
  {
    if ops == [] {
      InitialConsistent(requirement);
    } else {
      EveryRunConsistent(requirement, ops[..|ops| - 1]);
      ApplyKeepsConsistent(Run(InitialLedger(requirement), ops[..|ops| - 1]), ops[|ops| - 1]);
    }
  }

  // ---------------------------------------------------------------- replay

  lemma {:induction false} RecordsPersist(l: Ledger, ops: seq<Operation>, id: string)
    requires id in l.records
    ensures id in Run(l, ops).records && Run(l, ops).records[id] == l.records[id]
  {
    if ops != [] {
      RecordsPersist(l, ops[..|ops| - 1], id);
    }
  }

  /** A matching redelivery, however late, returns the first acknowledgement and changes nothing. */
  lemma RedeliveryReturnsFirstAcknowledgement(
      l: Ledger, first: AcceptedWorkEvent, d: bool, between: seq<Operation>, again: AcceptedWorkEvent, d': bool)
    requires Accept(l, first, d).1.Ok?
    requires MatchesAuthoritativeReplay(first, again)
    ensures
      var later := Run(Accept(l, first, d).0, between);
      Accept(later, again, d') == (later, Accept(l, first, d).1)
  {
    RecordsPersist(Accept(l, first, d).0, between, first.eventId);
  }

  /** A conflicting redelivery of a recorded id is always refused. */
  lemma ConflictIsRefused(l: Ledger, first: AcceptedWorkEvent, d: bool, between: seq<Operation>, again: AcceptedWorkEvent, d': bool)
    requires Accept(l, first, d).1.Ok? && again.eventId == first.eventId
    requires !MatchesAuthoritativeReplay(first, again)
    ensures
      var later := Run(Accept(l, first, d).0, between);
      Accept(later, again, d') == (later, Err(ConflictingEventReplay))
  {
    RecordsPersist(Accept(l, first, d).0, between, first.eventId);
  }

  // ---------------------------------------------------------------- worker reports

  function WithoutReport(op: Operation): Operation {
    match op
    case RegisterSession(_) => op
    case Deliver(e, d) => Deliver(e.(maybeReport := None), d)
  }

  ghost predicate SameUpToReports(l: Ledger, m: Ledger) {
    && SameFields(l, m)
    && l.records.Keys == m.records.Keys
    && forall id :: id in l.records ==>
         l.records[id].acknowledgement == m.records[id].acknowledgement
         && MatchesAuthoritativeReplay(l.records[id].event, m.records[id].event)
  }

  lemma ReportsDoNotMatter(l: Ledger, m: Ledger, op: Operation, op': Operation)
    requires SameUpToReports(l, m) && WithoutReport(op) == WithoutReport(op')
    ensures SameUpToReports(Apply(l, op).0, Apply(m, op').0) && Apply(l, op).1 == Apply(m, op').1
  {
    if op.Deliver? {
      AcceptIgnoresReports(l, m, op.event, op'.event, op.globallyDuplicate);
    }
  }

  lemma AcceptIgnoresReports(l: Ledger, m: Ledger, e: AcceptedWorkEvent, e': AcceptedWorkEvent, d: bool)
    requires SameUpToReports(l, m) && e.(maybeReport := None) == e'.(maybeReport := None)
    ensures SameUpToReports(Accept(l, e, d).0, Accept(m, e', d).0) && Accept(l, e, d).1 == Accept(m, e', d).1
  {
    hide CreditOf, Value, TransitionOf;
    if e.eventId in l.records {
      assert MatchesAuthoritativeReplay(l.records[e.eventId].event, m.records[e.eventId].event);
    } else {
      assert MatchesAuthoritativeReplay(e, e');
      CreditIgnoresReport(e, e');
    }
  }

  lemma CreditIgnoresReport(e: AcceptedWorkEvent, e': AcceptedWorkEvent)
    requires e.target == e'.target
    ensures CreditOf(e) == CreditOf(e')
  {
  }

  ghost predicate SameFields(l: Ledger, m: Ledger) {
    l.requirement == m.requirement && l.progress == m.progress && l.sessions == m.sessions && l.fingerprints == m.fingerprints
  }

  /** Changing worker reports, in any of the deliveries of a run, changes no answer. */
  lemma {:induction false} WorkerReportsChangeNoAnswer(requirement: CreditedWork, ops: seq<Operation>, ops': seq<Operation>)
    requires |ops| == |ops'| && forall i :: 0 <= i < |ops| ==> WithoutReport(ops[i]) == WithoutReport(ops'[i])
    ensures SameUpToReports(Run(InitialLedger(requirement), ops), Run(InitialLedger(requirement), ops'))
    ensures Answers(InitialLedger(requirement), ops) == Answers(InitialLedger(requirement), ops')
  {
    if ops != [] {
      var n := |ops| - 1;
      WorkerReportsChangeNoAnswer(requirement, ops[..n], ops'[..n]);
      var l := InitialLedger(requirement);
      ReportsDoNotMatter(Run(l, ops[..n]), Run(l, ops'[..n]), ops[n], ops'[n]);
    }
  }
}
