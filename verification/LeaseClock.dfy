/**
  A work lease on a monotonic clock: the states of one controller and its clock, the events of both,
  and what every interleaving of them keeps.
 */
module LeaseClock {
  import opened Wrappers
  import opened Limits

  const MAX_LEASE_MILLISECONDS: nat := 60000
  const MAX_RENEW_AFTER_MILLISECONDS: nat := 20000

  datatype Reason =
    | LostContinuity | MonotonicReset | Reboot | LeaseExpired
    | Paused | Cancelled | ChallengeSatisfied | ChallengeExpired | TabClosed | ConnectivityLost | ControlFailed

  /** The reasons a clock records by itself. */
  type Discontinuity = r: Reason | r.LostContinuity? || r.MonotonicReset? || r.Reboot? witness Reboot

  datatype Clock = Clock(continuityId: string, now: int, wall: int, discontinuity: Option<Discontinuity>)

  datatype Lease = Lease(
    leaseId: string, challengeId: string, continuityId: string, last: int, renewAt: int, expiresAt: int)

  datatype Restoration = NotRequired | Pending | Confirmed(reason: Reason)

  datatype World = World(clock: Clock, lease: Option<Lease>, restoration: Restoration, observed: seq<Reason>)

  /** A lease request; wellFormed stands for the checks on its other fields. */
  datatype Request = Request(
    leaseId: string, challengeId: string, duration: int, renewAfter: int, wellFormed: bool, authentic: bool)

  datatype Event =
    | AdvanceMonotonic(milliseconds: int)
    | JumpWallTime(seconds: int)
    | ResetMonotonic(milliseconds: int)
    | LoseContinuity(id: string)
    | RebootTo(id: string)
    | StartLease(grant: Request)
    | RenewLease(renewal: Request)
    | GetStatus
    | Restore(reason: Reason)

  datatype Reply =
    | Done
    | Mining(now: int, leaseId: string, challengeId: string, renewAt: int, expiresAt: int)
    | Baseline(now: int, restoration: Restoration)

  datatype Fault =
    | ClockInvalid | RequestInvalid | AuthenticationFailed | AlreadyActive | NotActive
    | RenewalMismatch | DeadlineOverflow | RestorationInconsistent

  datatype Outcome = Outcome(world: World, answer: Result<Reply, Fault>)

  // ---------------------------------------------------------------- the steps

  predicate SafeInteger(n: int) {
    -(MAX_SAFE_INTEGER as int) <= n <= MAX_SAFE_INTEGER
  }

  /** A clock value. */
  predicate Safe(n: int) {
    SafeInteger(n) && n >= 0
  }

  predicate ValidContinuityId(id: string) {
    1 <= |id| <= 128 && UrlSafe(id)
  }

  predicate ValidWindow(r: Request) {
    && 0 < r.duration <= MAX_LEASE_MILLISECONDS
    && 0 < r.renewAfter <= MAX_RENEW_AFTER_MILLISECONDS
    && r.renewAfter < r.duration
  }

  predicate ValidRequest(r: Request) {
    ValidWindow(r) && r.wellFormed
  }

  function RestoredBaseline(w: World, reason: Reason): World {
    w.(lease := None, restoration := Confirmed(reason), observed := w.observed + [reason])
  }

  /** The listener: what the controller does at every clock event and before every request. */
  function Enforced(w: World): World {
    if w.lease.None? then w
    else
      var lease, clock := w.lease.value, w.clock;
      if clock.discontinuity.Some? then
        RestoredBaseline(w, clock.discontinuity.value).(clock := clock.(discontinuity := None))
      else if clock.continuityId != lease.continuityId then RestoredBaseline(w, LostContinuity)
      else if clock.now < lease.last then RestoredBaseline(w, MonotonicReset)
      else if clock.now >= lease.expiresAt then RestoredBaseline(w, LeaseExpired)
      else w.(lease := Some(lease.(last := clock.now)))
  }

  function StatusOf(w: World): Result<Reply, Fault> {
    if w.lease.Some? then
      var lease := w.lease.value;
      Ok(Mining(w.clock.now, lease.leaseId, lease.challengeId, lease.renewAt, lease.expiresAt))
    else if w.restoration.Pending? then Err(RestorationInconsistent)
    else Ok(Baseline(w.clock.now, w.restoration))
  }

  function Started(w: World, grant: Request): Outcome {
    var w := Enforced(w);
    if !ValidRequest(grant) then Outcome(w, Err(RequestInvalid))
    else if !grant.authentic then Outcome(w, Err(AuthenticationFailed))
    else if w.lease.Some? then Outcome(w, Err(AlreadyActive))
    else
      var now := w.clock.now;
      var acknowledged := w.(clock := w.clock.(discontinuity := None));
      if !SafeInteger(now + grant.renewAfter) || !SafeInteger(now + grant.duration) then
        Outcome(acknowledged, Err(DeadlineOverflow))
      else
        var held := acknowledged.(
          lease := Some(Lease(grant.leaseId, grant.challengeId, w.clock.continuityId, now,
                              now + grant.renewAfter, now + grant.duration)),
          restoration := Pending);
        Outcome(held, StatusOf(held))
  }

  function Renewed(w: World, renewal: Request): Outcome {
    var w := Enforced(w);
    if !ValidRequest(renewal) then Outcome(w, Err(RequestInvalid))
    else if !renewal.authentic then Outcome(w, Err(AuthenticationFailed))
    else if w.lease.None? then Outcome(w, Err(NotActive))
    else if w.lease.value.leaseId != renewal.leaseId then Outcome(w, Err(RenewalMismatch))
    else
      var now := w.clock.now;
      var lease := w.lease.value.(last := now);
      if !SafeInteger(now + renewal.renewAfter) then Outcome(w.(lease := Some(lease)), Err(DeadlineOverflow))
      else
        var lease := lease.(renewAt := now + renewal.renewAfter);
        if !SafeInteger(now + renewal.duration) then Outcome(w.(lease := Some(lease)), Err(DeadlineOverflow))
        else
          var extended := w.(lease := Some(lease.(expiresAt := now + renewal.duration)));
          Outcome(extended, StatusOf(extended))
  }

  /** The clock after an event that its listeners are told of, unless it refuses the event. */
  function ClockAfter(clock: Clock, e: Event): Option<Clock> {
    match e
    case AdvanceMonotonic(ms) =>
      if Safe(ms) && Safe(clock.now + ms) then Some(clock.(now := clock.now + ms)) else None
    case ResetMonotonic(ms) =>
      if Safe(ms) then Some(clock.(now := ms, discontinuity := Some(MonotonicReset))) else None
    case LoseContinuity(id) =>
      if ValidContinuityId(id) then Some(clock.(continuityId := id, discontinuity := Some(LostContinuity)))
      else None
    case RebootTo(id) =>
      if ValidContinuityId(id) then Some(clock.(continuityId := id, now := 0, discontinuity := Some(Reboot)))
      else None
    case _ => None
  }

  predicate ClockEvent(e: Event) {
    e.AdvanceMonotonic? || e.ResetMonotonic? || e.LoseContinuity? || e.RebootTo?
  }

  function Next(w: World, e: Event): Outcome {
    if ClockEvent(e) then
      var clock := ClockAfter(w.clock, e);
      if clock.Some? then Outcome(Enforced(w.(clock := clock.value)), Ok(Done))
      else Outcome(w, Err(ClockInvalid))
    else
      match e
      case JumpWallTime(seconds) =>
        if Safe(seconds) then Outcome(w.(clock := w.clock.(wall := seconds)), Ok(Done))
        else Outcome(w, Err(ClockInvalid))
      case StartLease(grant) => Started(w, grant)
      case RenewLease(renewal) => Renewed(w, renewal)
      case Restore(reason) => var w := RestoredBaseline(w, reason); Outcome(w, StatusOf(w))
      case _ => var w := Enforced(w); Outcome(w, StatusOf(w))
  }

  /** A controller just attached to a clock. */
  function Initially(continuityId: string, now: nat, wall: nat): World {
    World(Clock(continuityId, now, wall, None), None, NotRequired, [])
  }

  function After(w: World, events: seq<Event>): World
    decreases |events|
  {
    if events == [] then w else After(Next(w, events[0]).world, events[1..])
  }

  /** The answers to a run, in order. */
  function Answers(w: World, events: seq<Event>): seq<Result<Reply, Fault>>
    decreases |events|
  {
    if events == [] then []
    else [Next(w, events[0]).answer] + Answers(Next(w, events[0]).world, events[1..])
  }

  // ---------------------------------------------------------------- safety

  /** A held lease is unexpired, within one lease length, on one continuity and with no discontinuity. */
  ghost predicate LeaseIsSound(w: World) {
    w.lease.Some? ==>
      var lease := w.lease.value;
      && w.clock.discontinuity.None?
      && w.clock.continuityId == lease.continuityId
      && lease.last == w.clock.now
      && w.clock.now < lease.expiresAt <= w.clock.now + MAX_LEASE_MILLISECONDS
      && lease.renewAt <= MAX_SAFE_INTEGER && lease.expiresAt <= MAX_SAFE_INTEGER
  }

  ghost predicate Sound(w: World) {
    && Safe(w.clock.now)
    && LeaseIsSound(w)
    && (w.restoration.Pending? <==> w.lease.Some?)
  }

  lemma NextIsSound(w: World, e: Event)
    requires Sound(w)
    ensures Sound(Next(w, e).world)
    ensures Next(w, e).answer != Err(RestorationInconsistent)
  {
  }

  /** Every interleaving of clock events and requests leaves a held lease sound, and none is ever
      answered with the inconsistency error. */
  lemma {:induction false} EveryRunIsSound(w: World, events: seq<Event>)
    requires Sound(w)
    ensures Sound(After(w, events))
    ensures Err(RestorationInconsistent) !in Answers(w, events)
    decreases |events|
  {
    hide Next, Sound;
    if events != [] {
      NextIsSound(w, events[0]);
      EveryRunIsSound(Next(w, events[0]).world, events[1..]);
    }
  }

  /** From a fresh controller on any valid clock, a held lease is always sound and restoration is
      pending exactly when a lease is held. */
  lemma EveryRunFromStart(continuityId: string, now: nat, wall: nat, events: seq<Event>)
    requires Safe(now)
    ensures
      var w := After(Initially(continuityId, now, wall), events);
      && (w.lease.Some? ==>
            && w.clock.now < w.lease.value.expiresAt <= w.clock.now + 60000
            && w.clock.continuityId == w.lease.value.continuityId && w.clock.discontinuity == None)
      && (w.restoration.Pending? <==> w.lease.Some?)
  {
    EveryRunIsSound(Initially(continuityId, now, wall), events);
  }

  /** Where the listener finds no discontinuity it finds the lease's continuity and no earlier time:
      its second and third test never decide. */
  lemma TestsThatNeverDecide(w: World, e: Event)
    requires Sound(w) && w.lease.Some?
    ensures
      var clock := if ClockAfter(w.clock, e).Some? then ClockAfter(w.clock, e).value else w.clock;
      clock.discontinuity.None? ==>
        clock.continuityId == w.lease.value.continuityId && w.lease.value.last <= clock.now
  {
  }

  // ---------------------------------------------------------------- when a lease starts, goes on and ends

  /** A lease window is one of at most a minute, to be renewed within its first twenty seconds and before
      its end. */
  lemma WindowExactly(r: Request)
    ensures ValidWindow(r) <==> 1 <= r.renewAfter < r.duration <= 60000 && r.renewAfter <= 20000
  {
  }

  /** Restoring, for whatever reason, ends a held lease at once and says so. */
  lemma RestoreEnds(w: World, reason: Reason)
    ensures
      var o := Next(w, Restore(reason));
      && o.world.lease == None && o.world.restoration == Confirmed(reason)
      && o.world.observed == w.observed + [reason] && o.world.clock == w.clock
      && o.answer == Ok(Baseline(w.clock.now, Confirmed(reason)))
  {
  }

  /** A clock event that breaks continuity. */
  predicate Breaks(e: Event) {
    match e
    case ResetMonotonic(ms) => 0 <= ms <= MAX_SAFE_INTEGER
    case LoseContinuity(id) => ValidContinuityId(id)
    case RebootTo(id) => ValidContinuityId(id)
    case _ => false
  }

  /** An advance the clock accepts. */
  predicate Advances(w: World, e: Event) {
    e.AdvanceMonotonic? && 0 <= e.milliseconds && w.clock.now + e.milliseconds <= MAX_SAFE_INTEGER
  }

  /** What a lease ended by this event ended for. */
  function EndedBy(e: Event): Reason {
    match e
    case Restore(reason) => reason
    case ResetMonotonic(_) => MonotonicReset
    case LoseContinuity(_) => LostContinuity
    case RebootTo(_) => Reboot
    case _ => LeaseExpired
  }

  /** A held lease ends in one step exactly by a restoration, a break of continuity or an advance to
      its expiry, for that reason, observed once; otherwise it goes on as the same lease. */
  lemma LeaseEndsExactly(w: World, e: Event)
    requires Sound(w) && w.lease.Some?
    ensures
      var t := Next(w, e).world;
      var lease := w.lease.value;
      && (t.lease.None? <==>
            e.Restore? || Breaks(e) || (Advances(w, e) && w.clock.now + e.milliseconds >= lease.expiresAt))
      && (t.lease.None? ==> t.restoration == Confirmed(EndedBy(e)) && t.observed == w.observed + [EndedBy(e)])
      && (t.lease.Some? ==>
            && t.observed == w.observed
            && t.lease.value.leaseId == lease.leaseId && t.lease.value.challengeId == lease.challengeId
            && t.lease.value.continuityId == lease.continuityId)
  {
  }

  /** A lease starts exactly on a valid, authentic grant while none is held and its deadline fits; it
      then runs from now, and an earlier discontinuity is acknowledged. */
  lemma StartsExactly(w: World, g: Request)
    requires Sound(w)
    ensures
      var o := Next(w, StartLease(g));
      var now := w.clock.now;
      && (o.answer.Ok? <==> ValidRequest(g) && g.authentic && w.lease.None? && now + g.duration <= MAX_SAFE_INTEGER)
      && (o.answer.Ok? ==>
            && o.world.lease ==
                 Some(Lease(g.leaseId, g.challengeId, w.clock.continuityId, now, now + g.renewAfter, now + g.duration))
            && o.world.clock == w.clock.(discontinuity := None)
            && o.answer == Ok(Mining(now, g.leaseId, g.challengeId, now + g.renewAfter, now + g.duration)))
      && (o.answer.Err? ==> o.world.lease == w.lease && o.world.restoration == w.restoration)
      && o.world.observed == w.observed
      && (!ValidRequest(g) ==> o.answer == Err(RequestInvalid))
      && (ValidRequest(g) && !g.authentic ==> o.answer == Err(AuthenticationFailed))
      && (ValidRequest(g) && g.authentic && w.lease.Some? ==> o.answer == Err(AlreadyActive))
  {
  }

  /** A lease is renewed exactly on a valid, authentic renewal of its own id whose deadline fits; its
      deadlines then count from now. */
  lemma RenewsExactly(w: World, r: Request)
    requires Sound(w)
    ensures
      var o := Next(w, RenewLease(r));
      var now := w.clock.now;
      var named := w.lease.Some? && w.lease.value.leaseId == r.leaseId;
      && (o.answer.Ok? <==> ValidRequest(r) && r.authentic && named && now + r.duration <= MAX_SAFE_INTEGER)
      && (o.answer.Ok? ==>
            && o.world == w.(lease := Some(w.lease.value.(renewAt := now + r.renewAfter, expiresAt := now + r.duration)))
            && o.answer == Ok(Mining(now, r.leaseId, w.lease.value.challengeId, now + r.renewAfter, now + r.duration)))
      && (!ValidRequest(r) ==> o.answer == Err(RequestInvalid))
      && (ValidRequest(r) && !r.authentic ==> o.answer == Err(AuthenticationFailed))
      && (ValidRequest(r) && r.authentic && w.lease.None? ==> o.answer == Err(NotActive))
      && (ValidRequest(r) && r.authentic && w.lease.Some? && !named ==> o.answer == Err(RenewalMismatch))
  {
  }

  /** A status changes nothing and reports the held lease with its deadlines, or the baseline with the
      last restoration. */
  lemma StatusExactly(w: World)
    requires Sound(w)
    ensures
      var o := Next(w, GetStatus);
      && o.world == w
      && (w.lease.Some? ==>
            var l := w.lease.value;
            o.answer == Ok(Mining(w.clock.now, l.leaseId, l.challengeId, l.renewAt, l.expiresAt)))
      && (w.lease.None? ==> o.answer == Ok(Baseline(w.clock.now, w.restoration)))
  {
  }

  /** Time moves by accepted advances, resets and reboots only; a break of continuity nobody's lease
      consumed stays pending. */
  lemma ClockMovesExactly(w: World, e: Event)
    requires Sound(w)
    ensures
      var t := Next(w, e).world.clock;
      && t.now == (if Advances(w, e) then w.clock.now + e.milliseconds
                   else if Breaks(e) && e.ResetMonotonic? then e.milliseconds
                   else if Breaks(e) && e.RebootTo? then 0 else w.clock.now)
      && t.continuityId == (if Breaks(e) && !e.ResetMonotonic? then e.id else w.clock.continuityId)
      && (Breaks(e) ==> (t.discontinuity == if w.lease.Some? then None else Some(EndedBy(e))))
      && (ClockEvent(e) && !Breaks(e) && !Advances(w, e) ==> Next(w, e) == Outcome(w, Err(ClockInvalid)))
  {
  }

  // ---------------------------------------------------------------- wall time

  function WithoutWall(events: seq<Event>): seq<Event> {
    if events == [] then []
    else (if events[0].JumpWallTime? then [] else [events[0]]) + WithoutWall(events[1..])
  }

  /** The answers to everything but wall-time jumps. */
  function MonotonicAnswers(w: World, events: seq<Event>): seq<Result<Reply, Fault>>
    decreases |events|
  {
    if events == [] then []
    else
      var next := Next(w, events[0]);
      (if events[0].JumpWallTime? then [] else [next.answer]) + MonotonicAnswers(next.world, events[1..])
  }

  function ForgetWall(w: World): World {
    w.(clock := w.clock.(wall := 0))
  }

  lemma EnforcedForgetsWall(w: World)
    ensures Enforced(ForgetWall(w)) == ForgetWall(Enforced(w))
  {
  }

  lemma NextForgetsWall(w: World, e: Event)
    requires !e.JumpWallTime?
    ensures Next(ForgetWall(w), e) == Outcome(ForgetWall(Next(w, e).world), Next(w, e).answer)
  {
    hide Enforced;
    EnforcedForgetsWall(w);
    if ClockEvent(e) {
      if ClockAfter(w.clock, e).Some? {
        EnforcedForgetsWall(w.(clock := ClockAfter(w.clock, e).value));
      }
    }
  }

  lemma NextIgnoresWall(v: World, w: World, e: Event)
    requires ForgetWall(v) == ForgetWall(w) && !e.JumpWallTime?
    ensures ForgetWall(Next(v, e).world) == ForgetWall(Next(w, e).world)
    ensures Next(v, e).answer == Next(w, e).answer
  {
    hide Next;
    NextForgetsWall(v, e);
    NextForgetsWall(w, e);
  }

  /** Wall-time jumps, however many and wherever they fall, change no answer and no lease. */
  lemma {:induction false} WallTimeChangesNothing(v: World, w: World, events: seq<Event>)
    requires ForgetWall(v) == ForgetWall(w)
    ensures Answers(v, WithoutWall(events)) == MonotonicAnswers(w, events)
    ensures ForgetWall(After(v, WithoutWall(events))) == ForgetWall(After(w, events))
    decreases |events|
  {
    if events != [] {
      var e, rest := events[0], events[1..];
      if e.JumpWallTime? {
        assert WithoutWall(events) == WithoutWall(rest);
        WallTimeChangesNothing(v, Next(w, e).world, rest);
      } else {
        NextIgnoresWall(v, w, e);
        assert WithoutWall(events)[1..] == WithoutWall(rest);
        WallTimeChangesNothing(Next(v, e).world, Next(w, e).world, rest);
      }
    }
  }

  // ---------------------------------------------------------------- a lease that nobody renews

  /** The time the clock's accepted advances add up to. */
  function Elapsed(w: World, events: seq<Event>): int
    decreases |events|
  {
    if events == [] then 0
    else
      var e := events[0];
      (if e.AdvanceMonotonic? && Next(w, e).answer.Ok? then e.milliseconds else 0)
      + Elapsed(Next(w, e).world, events[1..])
  }

  predicate NoExtension(events: seq<Event>) {
    forall i :: 0 <= i < |events| ==> !events[i].StartLease? && !events[i].RenewLease?
  }

  lemma StepWithoutExtension(w: World, e: Event)
    requires Sound(w) && !e.StartLease? && !e.RenewLease?
    ensures
      var next := Next(w, e);
      next.world.lease.Some? ==>
        && w.lease.Some?
        && next.world.lease.value == w.lease.value.(last := next.world.clock.now)
        && next.world.clock.now == w.clock.now + (if e.AdvanceMonotonic? && next.answer.Ok? then e.milliseconds else 0)
  {
  }

  lemma {:induction false} HeldThroughout(w: World, events: seq<Event>)
    requires Sound(w) && NoExtension(events) && After(w, events).lease.Some?
    ensures w.lease.Some?
    ensures
      var late := After(w, events);
      && late.lease.value == w.lease.value.(last := late.clock.now)
      && late.clock.now == w.clock.now + Elapsed(w, events)
    decreases |events|
  {
    hide Next, Sound;
    if events == [] {
      LastIsNow(w);
    } else {
      var next := Next(w, events[0]).world;
      NextIsSound(w, events[0]);
      HeldThroughout(next, events[1..]);
      StepWithoutExtension(w, events[0]);
    }
  }

  lemma LastIsNow(w: World)
    requires Sound(w) && w.lease.Some?
    ensures w.lease.value == w.lease.value.(last := w.clock.now)
  {
  }

  /** Without a start or a renewal, a lease is gone as soon as the clock has advanced to its expiry,
      and so after at most one lease length, whatever else happens. */
  lemma UnrenewedLeaseEnds(w: World, events: seq<Event>)
    requires Sound(w) && NoExtension(events)
    requires
      || Elapsed(w, events) >= MAX_LEASE_MILLISECONDS
      || (w.lease.Some? ==> Elapsed(w, events) >= w.lease.value.expiresAt - w.clock.now)
    ensures After(w, events).lease.None?
  {
    hide Next;
    if After(w, events).lease.Some? {
      HeldThroughout(w, events);
      EveryRunIsSound(w, events);
    }
  }

  // ---------------------------------------------------------------- renewal that fails half way

  /** A status reply that the status parser accepts. */
  predicate StatusParses(reply: Reply) {
    reply.Mining? ==> reply.expiresAt > reply.now && reply.expiresAt > reply.renewAt
  }

  ghost predicate RenewsBeforeExpiry(w: World) {
    w.lease.Some? ==> w.lease.value.renewAt < w.lease.value.expiresAt
  }

  /** The renewal moves the renewal point and then fails to move the expiry behind it. */
  predicate HalfRenewal(w: World, e: Event) {
    && w.lease.Some?
    && e.RenewLease?
    && ValidRequest(e.renewal) && e.renewal.authentic && e.renewal.leaseId == w.lease.value.leaseId
    && w.clock.now + e.renewal.duration > MAX_SAFE_INTEGER
    && w.lease.value.expiresAt <= w.clock.now + e.renewal.renewAfter <= MAX_SAFE_INTEGER
  }

  /** The renewal point stays before the expiry exactly when no renewal overflows between the two. */
  lemma RenewalPointStaysExactly(w: World, e: Event)
    requires Sound(w) && RenewsBeforeExpiry(w)
    ensures RenewsBeforeExpiry(Next(w, e).world) <==> !HalfRenewal(w, e)
    ensures Next(w, e).answer.Ok? ==> StatusParses(Next(w, e).answer.value)
  {
  }

  predicate NoHalfRenewal(w: World, events: seq<Event>)
    decreases |events|
  {
    events == [] || (!HalfRenewal(w, events[0]) && NoHalfRenewal(Next(w, events[0]).world, events[1..]))
  }

  /** In a run without such a renewal every status the controller gives is one the parser accepts. */
  lemma {:induction false} EveryStatusParses(w: World, events: seq<Event>)
    requires Sound(w) && RenewsBeforeExpiry(w) && NoHalfRenewal(w, events)
    ensures RenewsBeforeExpiry(After(w, events))
    ensures forall i :: 0 <= i < |Answers(w, events)| && Answers(w, events)[i].Ok? ==> StatusParses(Answers(w, events)[i].value)
    decreases |events|
  {
    hide Next, Sound, HalfRenewal, RenewsBeforeExpiry;
    if events != [] {
      NextIsSound(w, events[0]);
      RenewalPointStaysExactly(w, events[0]);
      EveryStatusParses(Next(w, events[0]).world, events[1..]);
    }
  }

  /** After such a renewal the next status is one the parser refuses. */
  lemma HalfRenewalSpoilsStatus(w: World, e: Event)
    requires Sound(w) && HalfRenewal(w, e)
    ensures
      var r := Next(Next(w, e).world, GetStatus).answer;
      r.Ok? && !StatusParses(r.value)
  {
  }

  /** Such a renewal is one step away from a controller that just started a lease. */
  lemma HalfRenewalHappens()
    ensures
      var start := StartLease(Request("l", "c", 10000, 5000, true, true));
      var renewal := RenewLease(Request("l", "c", 60000, 20000, true, true));
      var w := After(Initially("x", MAX_SAFE_INTEGER - 30000, 0), [start]);
      var r := Next(Next(w, renewal).world, GetStatus).answer;
      Sound(w) && HalfRenewal(w, renewal) && r.Ok? && !StatusParses(r.value)
  {
    var start := StartLease(Request("l", "c", 10000, 5000, true, true));
    var renewal := RenewLease(Request("l", "c", 60000, 20000, true, true));
    var w0 := Initially("x", MAX_SAFE_INTEGER - 30000, 0);
    assert After(w0, [start]) == Next(w0, start).world;
    HalfRenewalSpoilsStatus(Next(w0, start).world, renewal);
  }
}
