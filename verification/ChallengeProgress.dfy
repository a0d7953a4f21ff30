/**
  The mutable projection.  Each method does what the source does, on limbs, and is proved equal to
  the transition of module Progress.
 */
module ChallengeProgressModel {
  import opened Wrappers
  import opened Uint256Arithmetic
  import opened Work
  import opened Progress

  method MeetsRequirement(progress: Uint256, requirement: CreditedWork) returns (met: bool)
    ensures met <==> Meets(progress, requirement)
  {
    var c := Compare(progress, requirement);
    met := c >= 0;
  }

  method AcceptedWorkTransition(progress: Uint256, requirement: CreditedWork, credit: CreditedWork, inserted: bool)
    returns (r: Result<Transition, ProgressError>)
    ensures r == TransitionOf(progress, requirement, credit, inserted)
  {
    var alreadySatisfied := MeetsRequirement(progress, requirement);
    var maybeCredited := if alreadySatisfied || !inserted then None else Some(credit);
    var verified := progress;
    if maybeCredited.Some? {
      var sum := CheckedAdd(progress, credit);
      if sum.None? {
        return Err(InvalidWork(CreditedWorkOverflow));
      }
      verified := sum.value;
      OfValueInverse(verified);
    }
    var meets := MeetsRequirement(verified, requirement);
    var satisfied := alreadySatisfied || meets;
    var disposition :=
      if alreadySatisfied then ChallengeSatisfied else if !inserted then DuplicateShare else Credited;
    r := Ok(Transition(disposition, maybeCredited, verified, satisfied, !alreadySatisfied && satisfied));
  }

  class ChallengeProgress {
    const requirement: CreditedWork
    var verifiedProgress: Uint256
    var workSessions: set<string>
    var eventRecords: map<string, EventRecord>
    var shareFingerprints: set<string>

    ghost function View(): Ledger
      reads this
    {
      Ledger(requirement, verifiedProgress, workSessions, eventRecords, shareFingerprints)
    }

    constructor (requirement: CreditedWork)
      ensures View() == InitialLedger(requirement)
    {
      this.requirement := requirement;
      verifiedProgress := ZERO;
      workSessions, eventRecords, shareFingerprints := {}, map[], {};
    }

    method RegisterSession(session: string) returns (r: Result<(), ProgressError>)
      modifies this
      ensures (View(), r) == Register(old(View()), session)
    {
      if session in workSessions {
        return Err(DuplicateWorkSession);
      }
      workSessions := workSessions + {session};
      r := Ok(());
    }

    method AcceptWithGlobalDuplicate(event: AcceptedWorkEvent, globallyDuplicate: bool)
      returns (r: Result<Acknowledgement, ProgressError>)
      modifies this
      ensures (View(), r) == Accept(old(View()), event, globallyDuplicate)
    {
      if event.eventId in eventRecords {
        var record := eventRecords[event.eventId];
        if !MatchesAuthoritativeReplay(record.event, event) {
          return Err(ConflictingEventReplay);
        }
        return Ok(record.acknowledgement);
      }
      if event.sessionId !in workSessions {
        return Err(UnknownWorkSession);
      }
      var duplicate := globallyDuplicate || event.fingerprint in shareFingerprints;
      var credit := CreditedWorkOf(event.target);
      OfValueInverse(credit);
      var maybeTransition := AcceptedWorkTransition(verifiedProgress, requirement, credit, !duplicate);
      if maybeTransition.Err? {
        return Err(maybeTransition.error);
      }
      var transition := maybeTransition.value;
      verifiedProgress := transition.verifiedProgress;
      shareFingerprints := shareFingerprints + {event.fingerprint};
      var acknowledgement := Acknowledgement(
        event.eventId, event.sessionId, event.receivedAt, event.outcome,
        transition.disposition, transition.maybeCredited, verifiedProgress, requirement, transition.intentCreated);
      eventRecords := eventRecords[event.eventId := EventRecord(event, acknowledgement)];
      r := Ok(acknowledgement);
    }

    method IsSatisfied() returns (satisfied: bool)
      ensures satisfied <==> Satisfied(View())
    {
      satisfied := MeetsRequirement(verifiedProgress, requirement);
    }
  }
}
