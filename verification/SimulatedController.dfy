/** The mutable clock and the controllers that listen to it, each call proved to be its step. */
module SimulatedController {
  import opened Wrappers
  import opened LeaseClock
  import opened SharedClock

  class SimulatedWorkerControllerClock {
    var continuityId: string
    var monotonicMilliseconds: int
    var wallTimeSeconds: int
    var maybeDiscontinuity: Option<Discontinuity>
    var listeners: seq<SimulatedWorkerController>

    function Value(): Clock
      reads this
    {
      Clock(continuityId, monotonicMilliseconds, wallTimeSeconds, maybeDiscontinuity)
    }

    /** Each subscribed controller is there once and is on this clock. */
    ghost predicate Valid()
      reads this
    {
      && (forall i :: 0 <= i < |listeners| ==> listeners[i].clock == this)
      && (forall i, j :: 0 <= i < j < |listeners| ==> listeners[i] != listeners[j])
    }

    /** The clock and its controllers, in subscription order. */
    ghost function View(): (s: System)
      reads this, listeners
      ensures s.clock == Value() && |s.holders| == |listeners|
      ensures forall i :: 0 <= i < |listeners| ==> s.holders[i] == listeners[i].Own()
    {
      System(Value(), seq(|listeners|, i requires 0 <= i < |listeners| reads this, listeners => listeners[i].Own()))
    }

    /** Construction fails on values outside these; there is then no clock. */
    constructor (continuityId: string, monotonicMilliseconds: int, wallTimeSeconds: int)
      requires ValidContinuityId(continuityId) && Safe(monotonicMilliseconds) && Safe(wallTimeSeconds)
      ensures Valid() && View() == System(Clock(continuityId, monotonicMilliseconds, wallTimeSeconds, None), [])
    {
      this.continuityId := continuityId;
      this.monotonicMilliseconds := monotonicMilliseconds;
      this.wallTimeSeconds := wallTimeSeconds;
      maybeDiscontinuity := None;
      listeners := [];
    }

    /** Calls every listener in order. */
    method Emit()
      requires Valid()
      modifies this`maybeDiscontinuity, listeners
      ensures Valid() && View() == EnforcedAll(old(Value()), old(View()).holders)
    {
      hide Enforced, EnforcedAll;
      ghost var before := View();
      EnforcedAllNone(before.clock, before.holders);
      for i := 0 to |listeners|
        invariant System(Value(), View().holders[..i]) == EnforcedAll(before.clock, before.holders[..i])
        invariant forall j :: i <= j < |listeners| ==> listeners[j].Own() == before.holders[j]
      {
        ghost var now := View();
        listeners[i].EnforceSafety();
        assert forall j :: 0 <= j < |listeners| && j != i ==> listeners[j].Own() == now.holders[j];
        EnforcedAllStep(before.clock, before.holders, i);
        assert View().holders[..i + 1] == now.holders[..i] + [View().holders[i]];
      }
      assert before.holders[..|listeners|] == before.holders;
      assert View().holders[..|listeners|] == View().holders;
    }

    method AdvanceMonotonic(milliseconds: int) returns (r: Result<Reply, Fault>)
      requires Valid()
      modifies this, listeners
      ensures Valid() && listeners == old(listeners)
      ensures SharedOutcome(View(), r) == ClockStep(old(View()), LeaseClock.AdvanceMonotonic(milliseconds))
    {
      hide EnforcedAll;
      if !Safe(milliseconds) {
        return Err(ClockInvalid);
      }
      var next := monotonicMilliseconds + milliseconds;
      if !Safe(next) {
        return Err(ClockInvalid);
      }
      monotonicMilliseconds := next;
      assert View().holders == old(View()).holders;
      Emit();
      r := Ok(Done);
    }

    /** Wall time has no listeners. */
    method JumpWallTime(seconds: int) returns (r: Result<Reply, Fault>)
      requires Valid()
      modifies this
      ensures Valid() && listeners == old(listeners)
      ensures SharedOutcome(View(), r) == ClockStep(old(View()), LeaseClock.JumpWallTime(seconds))
    {
      if !Safe(seconds) {
        return Err(ClockInvalid);
      }
      wallTimeSeconds := seconds;
      r := Ok(Done);
    }

    method ResetMonotonic(milliseconds: int) returns (r: Result<Reply, Fault>)
      requires Valid()
      modifies this, listeners
      ensures Valid() && listeners == old(listeners)
      ensures SharedOutcome(View(), r) == ClockStep(old(View()), LeaseClock.ResetMonotonic(milliseconds))
    {
      hide EnforcedAll;
      if !Safe(milliseconds) {
        return Err(ClockInvalid);
      }
      monotonicMilliseconds := milliseconds;
      maybeDiscontinuity := Some(MonotonicReset);
      assert View().holders == old(View()).holders;
      Emit();
      r := Ok(Done);
    }

    method LoseContinuity(nextContinuityId: string) returns (r: Result<Reply, Fault>)
      requires Valid()
      modifies this, listeners
      ensures Valid() && listeners == old(listeners)
      ensures SharedOutcome(View(), r) == ClockStep(old(View()), LeaseClock.LoseContinuity(nextContinuityId))
    {
      hide EnforcedAll;
      if !ValidContinuityId(nextContinuityId) {
        return Err(ClockInvalid);
      }
      continuityId := nextContinuityId;
      maybeDiscontinuity := Some(LostContinuity);
      assert View().holders == old(View()).holders;
      Emit();
      r := Ok(Done);
    }

    method Reboot(nextContinuityId: string) returns (r: Result<Reply, Fault>)
      requires Valid()
      modifies this, listeners
      ensures Valid() && listeners == old(listeners)
      ensures SharedOutcome(View(), r) == ClockStep(old(View()), RebootTo(nextContinuityId))
    {
      hide EnforcedAll;
      if !ValidContinuityId(nextContinuityId) {
        return Err(ClockInvalid);
      }
      continuityId := nextContinuityId;
      monotonicMilliseconds := 0;
      maybeDiscontinuity := Some(Reason.Reboot);
      assert View().holders == old(View()).holders;
      Emit();
      r := Ok(Done);
    }

    method AcknowledgeDiscontinuity()
      modifies this`maybeDiscontinuity
      ensures maybeDiscontinuity == None
    {
      maybeDiscontinuity := None;
    }
  }

  class SimulatedWorkerController {
    const clock: SimulatedWorkerControllerClock
    var maybeLease: Option<Lease>
    var restoration: Restoration
    var observed: seq<Reason>

    function Value(): World
      reads this, clock
    {
      WorldOf(clock.Value(), Own())
    }

    /** The controller's own fields. */
    function Own(): Holder
      reads this
    {
      Holder(maybeLease, restoration, observed)
    }

    /** A new controller is subscribed after those already there. */
    constructor (clock: SimulatedWorkerControllerClock)
      requires clock.Valid()
      modifies clock
      ensures this.clock == clock && clock.Valid() && clock.listeners == old(clock.listeners) + [this]
      ensures clock.View() == SharedNext(old(clock.View()), Attach).system
    {
      this.clock := clock;
      maybeLease, restoration, observed := None, NotRequired, [];
      new;
      clock.listeners := clock.listeners + [this];
    }

    method EnforceSafety()
      modifies this, clock`maybeDiscontinuity
      ensures Value() == Enforced(old(Value()))
    {
      if maybeLease.None? {
        return;
      }
      var lease := maybeLease.value;
      if clock.maybeDiscontinuity.Some? {
        RestoreBaseline(clock.maybeDiscontinuity.value);
        clock.AcknowledgeDiscontinuity();
        return;
      }
      if clock.continuityId != lease.continuityId {
        RestoreBaseline(LostContinuity);
        return;
      }
      if clock.monotonicMilliseconds < lease.last {
        RestoreBaseline(MonotonicReset);
        return;
      }
      if clock.monotonicMilliseconds >= lease.expiresAt {
        RestoreBaseline(LeaseExpired);
        return;
      }
      maybeLease := Some(lease.(last := clock.monotonicMilliseconds));
    }

    method RestoreBaseline(reason: Reason)
      modifies this
      ensures Value() == RestoredBaseline(old(Value()), reason)
    {
      maybeLease := None;
      restoration := Confirmed(reason);
      observed := observed + [reason];
    }

    method CurrentStatus() returns (r: Result<Reply, Fault>)
      ensures r == StatusOf(Value())
    {
      var now := clock.monotonicMilliseconds;
      if maybeLease.Some? {
        var lease := maybeLease.value;
        return Ok(Mining(now, lease.leaseId, lease.challengeId, lease.renewAt, lease.expiresAt));
      }
      if restoration.Pending? {
        return Err(RestorationInconsistent);
      }
      r := Ok(Baseline(now, restoration));
    }

    method StartLease(grant: Request) returns (r: Result<Reply, Fault>)
      modifies this, clock`maybeDiscontinuity
      ensures Outcome(Value(), r) == Next(old(Value()), LeaseClock.StartLease(grant))
    {
      EnforceSafety();
      if !ValidRequest(grant) {
        return Err(RequestInvalid);
      }
      if !grant.authentic {
        return Err(AuthenticationFailed);
      }
      if maybeLease.Some? {
        return Err(AlreadyActive);
      }
      var now, continuityId := clock.monotonicMilliseconds, clock.continuityId;
      clock.AcknowledgeDiscontinuity();
      var renewAt := AddDeadline(now, grant.renewAfter);
      if renewAt.Err? {
        return Err(DeadlineOverflow);
      }
      var expiresAt := AddDeadline(now, grant.duration);
      if expiresAt.Err? {
        return Err(DeadlineOverflow);
      }
      maybeLease := Some(Lease(
        grant.leaseId, grant.challengeId, continuityId, now, renewAt.value, expiresAt.value));
      restoration := Pending;
      r := CurrentStatus();
    }

    method RenewLease(renewal: Request) returns (r: Result<Reply, Fault>)
      modifies this, clock`maybeDiscontinuity
      ensures Outcome(Value(), r) == Next(old(Value()), LeaseClock.RenewLease(renewal))
    {
      EnforceSafety();
      if !ValidRequest(renewal) {
        return Err(RequestInvalid);
      }
      if !renewal.authentic {
        return Err(AuthenticationFailed);
      }
      if maybeLease.None? {
        return Err(NotActive);
      }
      if maybeLease.value.leaseId != renewal.leaseId {
        return Err(RenewalMismatch);
      }
      var now := clock.monotonicMilliseconds;
      maybeLease := Some(maybeLease.value.(last := now));
      var renewAt := AddDeadline(now, renewal.renewAfter);
      if renewAt.Err? {
        return Err(DeadlineOverflow);
      }
      maybeLease := Some(maybeLease.value.(renewAt := renewAt.value));
      var expiresAt := AddDeadline(now, renewal.duration);
      if expiresAt.Err? {
        return Err(DeadlineOverflow);
      }
      maybeLease := Some(maybeLease.value.(expiresAt := expiresAt.value));
      r := CurrentStatus();
    }

    method Status() returns (r: Result<Reply, Fault>)
      modifies this, clock`maybeDiscontinuity
      ensures Outcome(Value(), r) == Next(old(Value()), GetStatus)
    {
      EnforceSafety();
      r := CurrentStatus();
    }

    /** Pause and cancel are this call with their own reason. */
    method Restore(reason: Reason) returns (r: Result<Reply, Fault>)
      modifies this
      ensures Outcome(Value(), r) == Next(old(Value()), LeaseClock.Restore(reason))
    {
      RestoreBaseline(reason);
      r := CurrentStatus();
    }
  }

  function AddDeadline(now: int, duration: int): (r: Result<int, Fault>) {
    if SafeInteger(now + duration) then Ok(now + duration) else Err(DeadlineOverflow)
  }
}
