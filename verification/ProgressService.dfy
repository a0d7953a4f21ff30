/**
  The service above the projections: many challenges, one registry of share fingerprints and one of
  event ids.  A share is credited to one challenge at most.
 */
module ProgressServiceModel {
  import opened Wrappers
  import opened Uint256Arithmetic
  import opened Work
  import opened Progress
  import opened ChallengeProgressModel

  datatype GlobalRecord = GlobalRecord(challengeId: string, record: EventRecord)

  datatype Service = Service(
    challenges: map<string, Ledger>,
    sessions: map<string, string>,
    events: map<string, GlobalRecord>,
    fingerprints: map<string, string>)

  const EMPTY: Service := Service(map[], map[], map[], map[])

  // ---------------------------------------------------------------- operations

  ghost function AfterRegisterChallenge(s: Service, id: string, requirement: CreditedWork)
    : (Service, Result<(), ProgressError>)
  {
    if id in s.challenges then (s, Err(DuplicateChallenge))
    else (s.(challenges := s.challenges[id := InitialLedger(requirement)]), Ok(()))
  }

  ghost function AfterRegisterSession(s: Service, id: string, session: string): (Service, Result<(), ProgressError>) {
    if session in s.sessions then (s, Err(DuplicateWorkSession))
    else if id !in s.challenges then (s, Err(UnknownChallenge))
    else
      var (l, r) := Register(s.challenges[id], session);
      if r.Err? then (s, r)
      else (s.(challenges := s.challenges[id := l], sessions := s.sessions[session := id]), Ok(()))
  }

  ghost function AfterReport(s: Service, e: AcceptedWorkEvent): (Service, Result<Acknowledgement, ProgressError>) {
    if e.sessionId !in s.sessions then (s, Err(UnknownWorkSession))
    else
      var id := s.sessions[e.sessionId];
      if e.eventId in s.events then
        var known := s.events[e.eventId];
        if known.challengeId != id || !MatchesAuthoritativeReplay(known.record.event, e)
        then (s, Err(ConflictingEventReplay))
        else (s, Ok(known.record.acknowledgement))
      else if id !in s.challenges then (s, Err(UnknownChallenge))
      else
        var (l, r) := Accept(s.challenges[id], e, e.fingerprint in s.fingerprints);
        if r.Err? then (s.(challenges := s.challenges[id := l]), r)
        else
          (Service(
             s.challenges[id := l],
             s.sessions,
             s.events[e.eventId := GlobalRecord(id, EventRecord(e, r.value))],
             if e.fingerprint in s.fingerprints then s.fingerprints else s.fingerprints[e.fingerprint := id]),
           r)
  }

  /** The service as it updates itself; every challenge has its own projection. */
  class ProgressService {
    var challenges: map<string, ChallengeProgress>
    var workSessions: map<string, string>
    var events: map<string, GlobalRecord>
    var shareFingerprints: map<string, string>

    ghost predicate Valid()
      reads this
    {
      forall a, b :: a in challenges && b in challenges && a != b ==> challenges[a] != challenges[b]
    }

    ghost function View(): (s: Service)
      reads this, challenges.Values
      ensures s.challenges.Keys == challenges.Keys
      ensures forall id :: id in challenges ==> s.challenges[id] == challenges[id].View()
    {
      Service(map id | id in challenges :: challenges[id].View(), workSessions, events, shareFingerprints)
    }

    constructor ()
      ensures Valid() && View() == EMPTY
    {
      challenges, workSessions, events, shareFingerprints := map[], map[], map[], map[];
    }

    method RegisterChallenge(id: string, requirement: CreditedWork) returns (r: Result<(), ProgressError>)
      requires Valid()
      modifies this
      ensures Valid() && (View(), r) == AfterRegisterChallenge(old(View()), id, requirement)
    {
      hide InitialLedger;
      if id in challenges {
        return Err(DuplicateChallenge);
      }
      ghost var before := View();
      var progress := new ChallengeProgress(requirement);
      ghost var others := challenges;
      challenges := challenges[id := progress];
      assert forall k :: k in others ==> others[k].View() == before.challenges[k] && others[k] != progress;
      OneAdded(before.challenges, View().challenges, id);
      r := Ok(());
    }

    method RegisterSession(id: string, session: string) returns (r: Result<(), ProgressError>)
      requires Valid()
      modifies this, challenges.Values
      ensures Valid() && (View(), r) == AfterRegisterSession(old(View()), id, session)
    {
      if session in workSessions {
        return Err(DuplicateWorkSession);
      }
      if id !in challenges {
        return Err(UnknownChallenge);
      }
      hide Register;
      ghost var before := View();
      r := challenges[id].RegisterSession(session);
      if r.Err? {
        RefusalStays(before.challenges[id], session);
        assert View().challenges == before.challenges;
        return;
      }
      workSessions := workSessions[session := id];
      OthersStay(before.challenges, View().challenges, id);
    }

    method Report(event: AcceptedWorkEvent) returns (r: Result<Acknowledgement, ProgressError>)
      requires Valid()
      modifies this, challenges.Values
      ensures Valid() && (View(), r) == AfterReport(old(View()), event)
    {
      hide Accept;
      if event.sessionId !in workSessions {
        return Err(UnknownWorkSession);
      }
      var id := workSessions[event.sessionId];
      if event.eventId in events {
        var known := events[event.eventId];
        if known.challengeId != id || !MatchesAuthoritativeReplay(known.record.event, event) {
          return Err(ConflictingEventReplay);
        }
        return Ok(known.record.acknowledgement);
      }
      var duplicate := event.fingerprint in shareFingerprints;
      if id !in challenges {
        return Err(UnknownChallenge);
      }
      ghost var before := View();
      r := challenges[id].AcceptWithGlobalDuplicate(event, duplicate);
      if r.Err? {
        OthersStay(before.challenges, View().challenges, id);
        return;
      }
      if event.fingerprint !in shareFingerprints {
        shareFingerprints := shareFingerprints[event.fingerprint := id];
      }
      events := events[event.eventId := GlobalRecord(id, EventRecord(event, r.value))];
      OthersStay(before.challenges, View().challenges, id);
    }
  }

  lemma OthersStay(m: map<string, Ledger>, m': map<string, Ledger>, id: string)
    requires id in m && m'.Keys == m.Keys && forall k :: k in m && k != id ==> m'[k] == m[k]
    ensures m' == m[id := m'[id]]
  {
  }

  lemma OneAdded(m: map<string, Ledger>, m': map<string, Ledger>, id: string)
    requires id !in m && id in m' && m'.Keys == m.Keys + {id} && forall k :: k in m ==> m'[k] == m[k]
    ensures m' == m[id := m'[id]]
  {
  }

  lemma RefusalStays(l: Ledger, session: string)
    requires Register(l, session).1.Err?
    ensures Register(l, session).0 == l
  {
  }

  // ---------------------------------------------------------------- runs

  datatype Call =
    | RegisterChallenge(id: string, requirement: CreditedWork)
    | RegisterSession(challengeId: string, session: string)
    | Report(event: AcceptedWorkEvent)

  ghost function After(s: Service, c: Call): Service {
    match c
    case RegisterChallenge(id, requirement) => AfterRegisterChallenge(s, id, requirement).0
    case RegisterSession(id, session) => AfterRegisterSession(s, id, session).0
    case Report(e) => AfterReport(s, e).0
  }

  ghost function Run(s: Service, calls: seq<Call>): Service {
    if calls == [] then s else After(Run(s, calls[..|calls| - 1]), calls[|calls| - 1])
  }

  // ---------------------------------------------------------------- what every run keeps

  /** The record of event id in challenge c credited share f. */
  ghost predicate Credits(s: Service, c: string, id: string, f: string) {
    && c in s.challenges && id in s.challenges[c].records
    && s.challenges[c].records[id].acknowledgement.disposition == Credited
    && s.challenges[c].records[id].event.fingerprint == f
  }

  /** No two credited records, in whatever challenges, are of one share. */
  ghost predicate CreditedOnce(s: Service) {
    forall f, c, i, d, j :: Credits(s, c, i, f) && Credits(s, d, j, f) ==> c == d && i == j
  }

  /** The sessions of the challenges are those of the registry. */
  ghost predicate SessionsAgree(s: Service) {
    && (forall x :: x in s.sessions ==> s.sessions[x] in s.challenges && x in s.challenges[s.sessions[x]].sessions)
    && (forall c, x :: c in s.challenges && x in s.challenges[c].sessions ==> x in s.sessions && s.sessions[x] == c)
  }

  /** The event records of the challenges are those of the registry. */
  ghost predicate EventsAgree(s: Service) {
    && (forall id :: id in s.events ==> HasRecord(s, s.events[id].challengeId, id, s.events[id].record))
    && (forall c, id, record :: HasRecord(s, c, id, record) ==> id in s.events && s.events[id] == GlobalRecord(c, record))
  }

  ghost predicate HasRecord(s: Service, c: string, id: string, record: EventRecord) {
    c in s.challenges && id in s.challenges[c].records && s.challenges[c].records[id] == record
  }

  /** The registry holds exactly the shares some challenge has seen. */
  ghost predicate SharesKnown(s: Service) {
    && (forall c, f :: c in s.challenges && f in s.challenges[c].fingerprints ==> f in s.fingerprints)
    && (forall f :: f in s.fingerprints ==> SeenBy(s, s.fingerprints[f], f))
  }

  ghost predicate SeenBy(s: Service, c: string, f: string) {
    c in s.challenges && f in s.challenges[c].fingerprints
  }

  ghost predicate LedgersConsistent(s: Service) {
    forall c :: c in s.challenges ==> Consistent(s.challenges[c])
  }

  ghost predicate Sound(s: Service) {
    SessionsAgree(s) && EventsAgree(s) && SharesKnown(s) && LedgersConsistent(s) && CreditedOnce(s)
  }

  /** Nothing but one ledger changes, and its records stay. */
  ghost predicate SameRecords(s: Service, c: string, t: Service) {
    && c in t.challenges && t.challenges == s.challenges[c := t.challenges[c]]
    && t.events == s.events && t.fingerprints == s.fingerprints
    && t.challenges[c].records == (if c in s.challenges then s.challenges[c].records else map[])
    && t.challenges[c].fingerprints == (if c in s.challenges then s.challenges[c].fingerprints else {})
  }

  lemma SameRecordsKeep(s: Service, c: string, t: Service)
    requires SameRecords(s, c, t) && EventsAgree(s) && SharesKnown(s) && CreditedOnce(s)
    ensures EventsAgree(t) && SharesKnown(t) && CreditedOnce(t)
  {
    SameCredits(s, c, t);
    NoNewCredits(s, t);
    SameEvents(s, c, t);
  }

  lemma SameEvents(s: Service, c: string, t: Service)
    requires SameRecords(s, c, t) && EventsAgree(s) && SharesKnown(s)
    ensures EventsAgree(t) && SharesKnown(t)
  {
    assert forall d, id, record :: HasRecord(t, d, id, record) <==> HasRecord(s, d, id, record);
  }

  lemma SameCredits(s: Service, c: string, t: Service)
    requires SameRecords(s, c, t)
    ensures forall d, i, f :: Credits(t, d, i, f) ==> Credits(s, d, i, f)
  {
  }

  lemma NoNewCredits(s: Service, t: Service)
    requires CreditedOnce(s) && forall d, i, f :: Credits(t, d, i, f) ==> Credits(s, d, i, f)
    ensures CreditedOnce(t)
  {
    hide Credits;
  }

  lemma RegisterChallengeKeepsSound(s: Service, id: string, requirement: CreditedWork)
    requires Sound(s) && id !in s.challenges
    ensures Sound(AfterRegisterChallenge(s, id, requirement).0)
  {
    hide Consistent, CreditedOnce, EventsAgree, SharesKnown;
    InitialConsistent(requirement);
    SameRecordsKeep(s, id, AfterRegisterChallenge(s, id, requirement).0);
  }

  lemma RegisterSessionKeepsSound(s: Service, id: string, session: string)
    requires Sound(s) && session !in s.sessions && id in s.challenges
    ensures Sound(AfterRegisterSession(s, id, session).0)
  {
    hide Consistent, CreditedOnce, EventsAgree, SharesKnown, SessionsAgree;
    var t := AfterRegisterSession(s, id, session).0;
    SessionsAfter(s, id, session);
    ApplyKeepsConsistent(s.challenges[id], Operation.RegisterSession(session));
    SameRecordsKeep(s, id, t);
  }

  lemma SessionsAfter(s: Service, id: string, session: string)
    requires SessionsAgree(s) && session !in s.sessions && id in s.challenges
    ensures session !in s.challenges[id].sessions && SessionsAgree(AfterRegisterSession(s, id, session).0)
  {
  }

  /** One challenge records a new event; only a share unknown everywhere is credited. */
  ghost predicate Delivered(s: Service, c: string, e: AcceptedWorkEvent, t: Service) {
    && c in s.challenges && c in t.challenges && t.challenges == s.challenges[c := t.challenges[c]]
    && e.eventId !in s.events && e.eventId in t.challenges[c].records
    && t.challenges[c].records == s.challenges[c].records[e.eventId := t.challenges[c].records[e.eventId]]
    && t.challenges[c].records[e.eventId].event == e
    && t.challenges[c].fingerprints == s.challenges[c].fingerprints + {e.fingerprint}
    && t.challenges[c].sessions == s.challenges[c].sessions
    && (t.challenges[c].records[e.eventId].acknowledgement.disposition == Credited ==> e.fingerprint !in s.fingerprints)
    && Consistent(t.challenges[c])
    && t.sessions == s.sessions
    && t.events == s.events[e.eventId := GlobalRecord(c, t.challenges[c].records[e.eventId])]
    && t.fingerprints == (if e.fingerprint in s.fingerprints then s.fingerprints else s.fingerprints[e.fingerprint := c])
  }

  lemma ReportDelivers(s: Service, e: AcceptedWorkEvent)
    requires Sound(s)
    ensures
      var t := AfterReport(s, e).0;
      t == s || (e.sessionId in s.sessions && Delivered(s, s.sessions[e.sessionId], e, t))
  {
    hide Consistent, CreditedOnce, SharesKnown, Accept;
    if e.sessionId in s.sessions && e.eventId !in s.events {
      var c := s.sessions[e.sessionId];
      var l, d := s.challenges[c], e.fingerprint in s.fingerprints;
      FreshEverywhere(s, c, e.eventId);
      DispositionExactly(l, e, d);
      AcceptKeepsConsistent(l, e, d);
      if Accept(l, e, d).1.Err? {
        DeliveryErrorChangesNothing(l, e, d);
        assert s.challenges[c := l] == s.challenges;
      }
    }
  }

  lemma DeliveryErrorChangesNothing(l: Ledger, e: AcceptedWorkEvent, d: bool)
    requires Accept(l, e, d).1.Err?
    ensures Accept(l, e, d).0 == l
  {
    ErrorChangesNothing(l, Deliver(e, d));
  }

  lemma DeliveredKeepsSound(s: Service, c: string, e: AcceptedWorkEvent, t: Service)
    requires Sound(s) && Delivered(s, c, e, t)
    ensures Sound(t)
  {
    DeliveredRegistries(s, c, e, t);
    DeliveredCreditsOnce(s, c, e, t);
    DeliveredLedgers(s, c, e, t);
  }

  lemma DeliveredLedgers(s: Service, c: string, e: AcceptedWorkEvent, t: Service)
    requires LedgersConsistent(s) && Delivered(s, c, e, t)
    ensures LedgersConsistent(t)
  {
    hide Consistent;
  }

  lemma DeliveredRegistries(s: Service, c: string, e: AcceptedWorkEvent, t: Service)
    requires SessionsAgree(s) && EventsAgree(s) && SharesKnown(s) && Delivered(s, c, e, t)
    ensures SessionsAgree(t) && EventsAgree(t) && SharesKnown(t)
  {
    hide SessionsAgree, EventsAgree, SharesKnown, Delivered;
    DeliveredSessions(s, c, e, t);
    DeliveredEvents(s, c, e, t);
    DeliveredShares(s, c, e, t);
  }

  lemma DeliveredSessions(s: Service, c: string, e: AcceptedWorkEvent, t: Service)
    requires SessionsAgree(s) && Delivered(s, c, e, t)
    ensures SessionsAgree(t)
  {
    hide Consistent;
  }

  lemma DeliveredEvents(s: Service, c: string, e: AcceptedWorkEvent, t: Service)
    requires EventsAgree(s) && Delivered(s, c, e, t)
    ensures EventsAgree(t)
  {
    hide EventsAgree, HasRecord, Consistent;
    var record := t.challenges[c].records[e.eventId];
    forall d, id, r
      ensures HasRecord(t, d, id, r) <==> HasRecord(s, d, id, r) || (d == c && id == e.eventId && r == record)
    {
      RecordsAfter(s, c, e, t, d, id, r);
    }
    EventsStep(s, c, e.eventId, record, t);
  }

  lemma EventsStep(s: Service, c: string, id: string, record: EventRecord, t: Service)
    requires EventsAgree(s) && id !in s.events && t.events == s.events[id := GlobalRecord(c, record)]
    requires forall d, i, r :: HasRecord(t, d, i, r) <==> HasRecord(s, d, i, r) || (d == c && i == id && r == record)
    ensures EventsAgree(t)
  {
    hide HasRecord;
  }

  lemma RecordsAfter(s: Service, c: string, e: AcceptedWorkEvent, t: Service, d: string, id: string, record: EventRecord)
    requires EventsAgree(s) && Delivered(s, c, e, t)
    ensures HasRecord(t, d, id, record) <==>
      HasRecord(s, d, id, record) || (d == c && id == e.eventId && record == t.challenges[c].records[e.eventId])
  {
    hide Consistent, EventsAgree;
    FreshEverywhere(s, c, e.eventId);
  }

  lemma FreshEverywhere(s: Service, c: string, id: string)
    requires EventsAgree(s) && id !in s.events && c in s.challenges
    ensures id !in s.challenges[c].records
  {
    assert id in s.challenges[c].records ==> HasRecord(s, c, id, s.challenges[c].records[id]);
  }

  lemma DeliveredShares(s: Service, c: string, e: AcceptedWorkEvent, t: Service)
    requires SharesKnown(s) && Delivered(s, c, e, t)
    ensures SharesKnown(t)
  {
    hide Consistent;
  }

  lemma DeliveredCreditsOnce(s: Service, c: string, e: AcceptedWorkEvent, t: Service)
    requires LedgersConsistent(s) && SharesKnown(s) && CreditedOnce(s) && Delivered(s, c, e, t)
    ensures CreditedOnce(t)
  {
    hide Consistent, LedgersConsistent, CreditedOnce, SharesKnown;
    forall d, i, f | Credits(t, d, i, f)
      ensures if d == c && i == e.eventId then f !in s.fingerprints else Credits(s, d, i, f)
    {
    }
    forall d, i, f | Credits(s, d, i, f) ensures f in s.fingerprints {
      CreditedShareKnown(s, d, i, f);
    }
    OneNewCredit(s, c, e.eventId, t);
  }

  lemma OneNewCredit(s: Service, c: string, id: string, t: Service)
    requires CreditedOnce(s)
    requires forall d, i, f :: Credits(t, d, i, f) ==> if d == c && i == id then f !in s.fingerprints else Credits(s, d, i, f)
    requires forall d, i, f :: Credits(s, d, i, f) ==> f in s.fingerprints
    ensures CreditedOnce(t)
  {
    hide Credits;
    forall f, a, i, b, j | Credits(t, a, i, f) && Credits(t, b, j, f) ensures a == b && i == j {
    }
  }

  lemma CreditedShareKnown(s: Service, c: string, id: string, f: string)
    requires LedgersConsistent(s) && SharesKnown(s) && Credits(s, c, id, f)
    ensures f in s.fingerprints
  {
    hide CreditedRecords, Total;
    assert RecordFaithful(s.challenges[c], id);
  }

  lemma AfterKeepsSound(s: Service, c: Call)
    requires Sound(s)
    ensures Sound(After(s, c))
  {
    hide Sound, Delivered, AfterReport;
    match c
    case RegisterChallenge(id, requirement) =>
      if id !in s.challenges {
        RegisterChallengeKeepsSound(s, id, requirement);
      }
    case RegisterSession(id, session) =>
      if session !in s.sessions && id in s.challenges {
        RegisterSessionKeepsSound(s, id, session);
      }
    case Report(e) =>
      ReportDelivers(s, e);
      if After(s, c) != s {
        DeliveredKeepsSound(s, s.sessions[e.sessionId], e, After(s, c));
      }
  }

  /** In every run of the service, whatever challenges, sessions and deliveries: no share is credited
      twice anywhere, and every projection keeps its own invariant. */
  lemma {:induction false} NoShareCreditedTwice(calls: seq<Call>)
    ensures Sound(Run(EMPTY, calls)) && CreditedOnce(Run(EMPTY, calls))
  {
    hide After;
    if calls != [] {
      NoShareCreditedTwice(calls[..|calls| - 1]);
      AfterKeepsSound(Run(EMPTY, calls[..|calls| - 1]), calls[|calls| - 1]);
    }
  }

  // ---------------------------------------------------------------- answers

  /** A challenge is registered once, with its own requirement and nothing credited. */
  lemma RegisterChallengeExactly(s: Service, id: string, requirement: CreditedWork)
    ensures
      var (t, r) := AfterRegisterChallenge(s, id, requirement);
      && r == (if id in s.challenges then Err(DuplicateChallenge) else Ok(()))
      && (r.Err? ==> t == s)
      && (r.Ok? ==>
            && id in t.challenges && t == s.(challenges := s.challenges[id := t.challenges[id]])
            && t.challenges[id].requirement == requirement && Value(t.challenges[id].progress) == 0
            && t.challenges[id].sessions == {} && t.challenges[id].records == map[] && t.challenges[id].fingerprints == {})
  {
    Constants();
  }

  /** A session is bound to one registered challenge, once. */
  lemma RegisterSessionExactly(s: Service, id: string, session: string)
    requires Sound(s)
    ensures
      var (t, r) := AfterRegisterSession(s, id, session);
      && r == (if session in s.sessions then Err(DuplicateWorkSession)
               else if id !in s.challenges then Err(UnknownChallenge) else Ok(()))
      && (r.Err? ==> t == s)
      && (r.Ok? ==>
            && t.sessions == s.sessions[session := id] && t.events == s.events && t.fingerprints == s.fingerprints
            && t.challenges.Keys == s.challenges.Keys
            && t.challenges[id] == s.challenges[id].(sessions := s.challenges[id].sessions + {session})
            && forall c :: c in s.challenges && c != id ==> t.challenges[c] == s.challenges[c])
  {
    hide Consistent, CreditedOnce, EventsAgree, SharesKnown;
    if session !in s.sessions && id in s.challenges {
      SessionsAfter(s, id, session);
    }
  }

  /** A refusal leaves the service as it was. */
  lemma ReportErrorChangesNothing(s: Service, e: AcceptedWorkEvent)
    requires AfterReport(s, e).1.Err?
    ensures AfterReport(s, e).0 == s
  {
    if e.sessionId in s.sessions && e.eventId !in s.events && s.sessions[e.sessionId] in s.challenges {
      var id := s.sessions[e.sessionId];
      ErrorChangesNothing(s.challenges[id], Deliver(e, e.fingerprint in s.fingerprints));
      assert s.challenges[id := s.challenges[id]] == s.challenges;
    }
  }

  /** A new event is credited exactly when its challenge is short of its requirement and no challenge
      at all has seen its share; otherwise it is recorded without credit. */
  lemma ReportCreditsExactly(s: Service, e: AcceptedWorkEvent)
    requires Sound(s) && e.sessionId in s.sessions && e.eventId !in s.events && AfterReport(s, e).1.Ok?
    ensures
      var l := s.challenges[s.sessions[e.sessionId]];
      var met := Value(l.progress) >= Value(l.requirement);
      var seen := exists c :: SeenBy(s, c, e.fingerprint);
      AfterReport(s, e).1.value.disposition == if met then ChallengeSatisfied else if seen then DuplicateShare else Credited
  {
    hide Accept, Consistent, CreditedOnce, Value;
    var c := s.sessions[e.sessionId];
    FreshEverywhere(s, c, e.eventId);
    DispositionExactly(s.challenges[c], e, e.fingerprint in s.fingerprints);
    if e.fingerprint in s.fingerprints {
      assert SeenBy(s, s.fingerprints[e.fingerprint], e.fingerprint);
    } else {
      assert !SeenBy(s, c, e.fingerprint);
    }
  }

  lemma {:induction false} KnownStays(s: Service, calls: seq<Call>)
    ensures forall x :: x in s.sessions ==> x in Run(s, calls).sessions && Run(s, calls).sessions[x] == s.sessions[x]
    ensures forall id :: id in s.events ==> id in Run(s, calls).events && Run(s, calls).events[id] == s.events[id]
  {
    hide Accept, Register;
    if calls != [] {
      KnownStays(s, calls[..|calls| - 1]);
    }
  }

  /** A matching redelivery to the service, after any further calls, returns the first acknowledgement
      and changes nothing. */
  lemma RedeliveryToService(s: Service, first: AcceptedWorkEvent, between: seq<Call>, again: AcceptedWorkEvent)
    requires AfterReport(s, first).1.Ok? && MatchesAuthoritativeReplay(first, again)
    ensures
      var later := Run(AfterReport(s, first).0, between);
      AfterReport(later, again) == (later, AfterReport(s, first).1)
  {
    hide Accept;
    KnownStays(AfterReport(s, first).0, between);
  }
}
