/**
  Several controllers on one clock.  A clock event reaches them one after the other, and the first
  that holds a lease acknowledges a discontinuity before the others look.
 */
module SharedClock {
  import opened Wrappers
  import opened Limits
  import opened LeaseClock

  /** What one controller keeps for itself. */
  datatype Holder = Holder(lease: Option<Lease>, restoration: Restoration, observed: seq<Reason>)

  const FRESH: Holder := Holder(None, NotRequired, [])

  function WorldOf(clock: Clock, h: Holder): World {
    World(clock, h.lease, h.restoration, h.observed)
  }

  function HolderOf(w: World): Holder {
    Holder(w.lease, w.restoration, w.observed)
  }

  /** A clock and the controllers subscribed to it, in order. */
  datatype System = System(clock: Clock, holders: seq<Holder>)

  /** The listeners of a clock event, called in order. */
  function EnforcedAll(clock: Clock, holders: seq<Holder>): (r: System)
    ensures |r.holders| == |holders|
  {
    if holders == [] then System(clock, [])
    else
      var front := EnforcedAll(clock, holders[..|holders| - 1]);
      var w := Enforced(WorldOf(front.clock, holders[|holders| - 1]));
      System(w.clock, front.holders + [HolderOf(w)])
  }

  lemma EnforcedAllNone(clock: Clock, holders: seq<Holder>)
    ensures EnforcedAll(clock, holders[..0]) == System(clock, [])
  {
  }

  lemma EnforcedAllStep(clock: Clock, holders: seq<Holder>, i: nat)
    requires i < |holders|
    ensures
      var front := EnforcedAll(clock, holders[..i]);
      var w := Enforced(WorldOf(front.clock, holders[i]));
      EnforcedAll(clock, holders[..i + 1]) == System(w.clock, front.holders + [HolderOf(w)])
  {
    hide Enforced;
    assert holders[..i + 1][..i] == holders[..i];
  }

  datatype SharedEvent =
    | OnClock(event: Event)
    | Asked(k: nat, request: Event)
    | Attach

  datatype SharedOutcome = SharedOutcome(system: System, answer: Result<Reply, Fault>)

  /** A request to a controller, rather than a clock event. */
  predicate IsRequest(e: Event) {
    !ClockEvent(e) && !e.JumpWallTime?
  }

  /** A clock event, seen by every listener. */
  function ClockStep(s: System, e: Event): SharedOutcome {
    if ClockEvent(e) then
      var clock := ClockAfter(s.clock, e);
      if clock.Some? then SharedOutcome(EnforcedAll(clock.value, s.holders), Ok(Done))
      else SharedOutcome(s, Err(ClockInvalid))
    else if e.JumpWallTime? && Safe(e.seconds) then
      SharedOutcome(s.(clock := s.clock.(wall := e.seconds)), Ok(Done))
    else SharedOutcome(s, Err(ClockInvalid))
  }

  function RequestStep(s: System, k: nat, e: Event): SharedOutcome
    requires k < |s.holders|
  {
    var o := Next(WorldOf(s.clock, s.holders[k]), e);
    SharedOutcome(System(o.world.clock, s.holders[k := HolderOf(o.world)]), o.answer)
  }

  function SharedNext(s: System, e: SharedEvent): SharedOutcome {
    match e
    case OnClock(event) => ClockStep(s, event)
    case Asked(k, request) =>
      if k < |s.holders| && IsRequest(request) then RequestStep(s, k, request) else SharedOutcome(s, Err(RequestInvalid))
    case Attach => SharedOutcome(s.(holders := s.holders + [FRESH]), Ok(Done))
  }

  function SharedAfter(s: System, events: seq<SharedEvent>): System
    decreases |events|
  {
    if events == [] then s else SharedAfter(SharedNext(s, events[0]).system, events[1..])
  }

  /** With one controller the clock event is the step of the single-controller model. */
  lemma OneListener(w: World, e: Event)
    requires !IsRequest(e)
    ensures
      var o := ClockStep(System(w.clock, [HolderOf(w)]), e);
      SharedOutcome(System(Next(w, e).world.clock, [HolderOf(Next(w, e).world)]), Next(w, e).answer) == o
  {
    hide Enforced;
    if ClockEvent(e) && ClockAfter(w.clock, e).Some? {
      var clock := ClockAfter(w.clock, e).value;
      assert [HolderOf(w)][..0] == [];
      assert EnforcedAll(clock, []) == System(clock, []);
      assert WorldOf(clock, HolderOf(w)) == w.(clock := clock);
    }
  }

  // ---------------------------------------------------------------- every lease stays sound

  ghost predicate AllSound(s: System) {
    Safe(s.clock.now) && forall k :: 0 <= k < |s.holders| ==> Sound(WorldOf(s.clock, s.holders[k]))
  }

  /** What a lease keeps whatever the clock does: it was granted for at most one lease length. */
  ghost predicate Bounded(h: Holder) {
    && (h.restoration.Pending? <==> h.lease.Some?)
    && (h.lease.Some? ==>
          && h.lease.value.expiresAt <= h.lease.value.last + MAX_LEASE_MILLISECONDS
          && h.lease.value.renewAt <= MAX_SAFE_INTEGER && h.lease.value.expiresAt <= MAX_SAFE_INTEGER)
  }

  lemma EnforcedIsSound(clock: Clock, h: Holder)
    requires Safe(clock.now) && Bounded(h)
    ensures
      var w := Enforced(WorldOf(clock, h));
      && Sound(w)
      && w.clock == clock.(discontinuity := w.clock.discontinuity)
      && (w.clock.discontinuity == clock.discontinuity || w.clock.discontinuity.None?)
  {
  }

  /** Acknowledging a discontinuity disturbs no sound controller. */
  lemma AcknowledgedIsSound(clock: Clock, h: Holder)
    requires Sound(WorldOf(clock, h))
    ensures Sound(WorldOf(clock.(discontinuity := None), h))
  {
  }

  lemma {:induction false} EnforcedAllSound(clock: Clock, holders: seq<Holder>)
    requires Safe(clock.now) && forall k :: 0 <= k < |holders| ==> Bounded(holders[k])
    ensures
      var r := EnforcedAll(clock, holders);
      && AllSound(r)
      && r.clock == clock.(discontinuity := r.clock.discontinuity)
      && (r.clock.discontinuity == clock.discontinuity || r.clock.discontinuity.None?)
  {
    hide Enforced, Bounded, Sound;
    if holders != [] {
      var n := |holders| - 1;
      EnforcedAllSound(clock, holders[..n]);
      var front := EnforcedAll(clock, holders[..n]);
      EnforcedIsSound(front.clock, holders[n]);
      var w := Enforced(WorldOf(front.clock, holders[n]));
      assert WorldOf(w.clock, HolderOf(w)) == w;
      forall k | 0 <= k < n ensures Sound(WorldOf(w.clock, front.holders[k])) {
        AcknowledgedIsSound(front.clock, front.holders[k]);
      }
    }
  }

  lemma SoundIsBounded(clock: Clock, h: Holder)
    requires Sound(WorldOf(clock, h))
    ensures Bounded(h)
  {
  }

  lemma ClockStaysSafe(clock: Clock, e: Event)
    requires Safe(clock.now) && ClockAfter(clock, e).Some?
    ensures Safe(ClockAfter(clock, e).value.now)
  {
  }

  /** A request leaves the clock as it was, but for an acknowledged discontinuity. */
  lemma RequestKeepsClock(w: World, e: Event)
    requires IsRequest(e)
    ensures
      var clock := Next(w, e).world.clock;
      clock == w.clock || clock == w.clock.(discontinuity := None)
  {
  }

  lemma SharedNextSound(s: System, e: SharedEvent)
    requires AllSound(s)
    ensures AllSound(SharedNext(s, e).system)
    ensures SharedNext(s, e).answer != Err(RestorationInconsistent)
  {
    hide Next, Sound, ClockAfter, ClockEvent, Bounded;
    match e
    case OnClock(event) =>
      if ClockEvent(event) {
        if ClockAfter(s.clock, event).Some? {
          ClockStaysSafe(s.clock, event);
          forall k | 0 <= k < |s.holders| ensures Bounded(s.holders[k]) {
            SoundIsBounded(s.clock, s.holders[k]);
          }
          EnforcedAllSound(ClockAfter(s.clock, event).value, s.holders);
        }
      } else if event.JumpWallTime? {
        forall k | 0 <= k < |s.holders|
          ensures Sound(WorldOf(s.clock.(wall := event.seconds), s.holders[k]))
        {
          WallIsSound(s.clock, s.holders[k], event.seconds);
        }
      }
    case Asked(k, request) =>
      if k < |s.holders| && IsRequest(request) {
        var w := WorldOf(s.clock, s.holders[k]);
        NextIsSound(w, request);
        RequestKeepsClock(w, request);
        var o := Next(w, request).world;
        SoundClock(o);
        assert WorldOf(o.clock, HolderOf(o)) == o;
        forall j | 0 <= j < |s.holders| && j != k ensures Sound(WorldOf(o.clock, s.holders[j])) {
          AcknowledgedIsSound(s.clock, s.holders[j]);
        }
      }
    case Attach => FreshIsSound(s.clock);
  }

  lemma WallIsSound(clock: Clock, h: Holder, seconds: int)
    requires Sound(WorldOf(clock, h))
    ensures Sound(WorldOf(clock.(wall := seconds), h))
  {
  }

  lemma SoundClock(w: World)
    requires Sound(w)
    ensures Safe(w.clock.now)
  {
  }

  lemma FreshIsSound(clock: Clock)
    requires Safe(clock.now)
    ensures Sound(WorldOf(clock, FRESH))
  {
  }

  /** However many controllers share a clock and however events and requests interleave, each held
      lease is unexpired, within one lease length, on the clock's continuity, with no discontinuity
      pending. */
  lemma {:induction false} EverySharedRunIsSound(s: System, events: seq<SharedEvent>)
    requires AllSound(s)
    ensures AllSound(SharedAfter(s, events))
    decreases |events|
  {
    hide AllSound, SharedNext;
    if events != [] {
      SharedNextSound(s, events[0]);
      EverySharedRunIsSound(SharedNext(s, events[0]).system, events[1..]);
    }
  }

  // ---------------------------------------------------------------- who notices a discontinuity

  predicate Holds(h: Holder) {
    h.lease.Some?
  }

  /** The tests that remain once the discontinuity is acknowledged. */
  predicate Passes(clock: Clock, h: Holder) {
    && Holds(h)
    && clock.continuityId == h.lease.value.continuityId
    && h.lease.value.last <= clock.now < h.lease.value.expiresAt
  }

  lemma {:induction false} AcknowledgedByFirst(clock: Clock, holders: seq<Holder>)
    requires clock.discontinuity.Some?
    ensures
      EnforcedAll(clock, holders).clock ==
        if exists j :: 0 <= j < |holders| && Holds(holders[j]) then clock.(discontinuity := None) else clock
  {
    if holders != [] {
      var front := holders[..|holders| - 1];
      AcknowledgedByFirst(clock, front);
      if j :| 0 <= j < |front| && Holds(front[j]) {
        assert Holds(holders[j]);
      } else if Holds(holders[|front|]) {
        assert Holds(holders[|front|]);
      }
    }
  }

  lemma {:induction false} EnforcedAllAt(clock: Clock, holders: seq<Holder>, k: nat)
    requires k < |holders|
    ensures
      EnforcedAll(clock, holders).holders[k] ==
        HolderOf(Enforced(WorldOf(EnforcedAll(clock, holders[..k]).clock, holders[k])))
  {
    hide Enforced;
    var n := |holders| - 1;
    if k < n {
      EnforcedAllAt(clock, holders[..n], k);
      assert holders[..n][..k] == holders[..k];
    }
  }

  /** A lease outlives a discontinuity exactly when a controller before it held one too and its own
      continuity and deadline still fit: only the first holder sees the discontinuity. */
  lemma SurvivesDiscontinuityExactly(clock: Clock, holders: seq<Holder>, k: nat)
    requires clock.discontinuity.Some? && k < |holders|
    ensures Holds(EnforcedAll(clock, holders).holders[k]) <==>
      Passes(clock, holders[k]) && exists j :: 0 <= j < k && Holds(holders[j])
  {
    EnforcedAllAt(clock, holders, k);
    AcknowledgedByFirst(clock, holders[..k]);
    if j :| 0 <= j < k && Holds(holders[j]) {
      assert Holds(holders[..k][j]);
    }
  }

  /** The lease of controller k still fits, and a controller before it held one too. */
  predicate FitsBehind(clock: Clock, holders: seq<Holder>, j: int, k: int) {
    0 <= j < k < |holders| && Holds(holders[j]) && Passes(clock, holders[k])
  }

  lemma {:induction false} NothingToAcknowledge(clock: Clock, holders: seq<Holder>)
    requires clock.discontinuity.None?
    ensures EnforcedAll(clock, holders).clock == clock
  {
    if holders != [] {
      NothingToAcknowledge(clock, holders[..|holders| - 1]);
    }
  }

  /** Without a discontinuity every controller reacts as if it were alone. */
  lemma EachAsAlone(clock: Clock, holders: seq<Holder>, k: nat)
    requires clock.discontinuity.None? && k < |holders|
    ensures EnforcedAll(clock, holders).holders[k] == HolderOf(Enforced(WorldOf(clock, holders[k])))
    ensures EnforcedAll(clock, holders).clock == clock
  {
    hide Enforced;
    EnforcedAllAt(clock, holders, k);
    NothingToAcknowledge(clock, holders[..k]);
    NothingToAcknowledge(clock, holders);
  }

  /** Every lease ends at a discontinuity exactly when none still fits behind another. */
  lemma AllEndExactly(clock: Clock, holders: seq<Holder>)
    requires clock.discontinuity.Some?
    ensures (forall k :: 0 <= k < |holders| ==> !Holds(EnforcedAll(clock, holders).holders[k])) <==>
      !exists j, k :: FitsBehind(clock, holders, j, k)
  {
    hide EnforcedAll, Holds, Passes;
    if k :| 0 <= k < |holders| && Holds(EnforcedAll(clock, holders).holders[k]) {
      SurvivesDiscontinuityExactly(clock, holders, k);
      var j :| 0 <= j < k && Holds(holders[j]);
      assert FitsBehind(clock, holders, j, k);
    }
    if j, k :| FitsBehind(clock, holders, j, k) {
      SurvivesDiscontinuityExactly(clock, holders, k);
    }
  }

  /** Two controllers with leases of ten seconds, and a reset one millisecond ahead: the first lease
      ends and the second goes on. */
  lemma SurvivalHappens()
    ensures
      var s0 := System(Clock("x", 0, 0, None), []);
      var start := StartLease(Request("l", "c", 10000, 5000, true, true));
      var s := SharedAfter(s0, [Attach, Attach, Asked(0, start), Asked(1, start), OnClock(ResetMonotonic(1))]);
      AllSound(s) && |s.holders| == 2 && !Holds(s.holders[0]) && Holds(s.holders[1])
  {
    var s0 := System(Clock("x", 0, 0, None), []);
    var start := StartLease(Request("l", "c", 10000, 5000, true, true));
    var events := [Attach, Attach, Asked(0, start), Asked(1, start), OnClock(ResetMonotonic(1))];
    EverySharedRunIsSound(s0, events);
    var s4 := TwoLeases(start);
    var clock := ClockAfter(s4.clock, ResetMonotonic(1)).value;
    assert Holds(s4.holders[0]);
    SurvivesDiscontinuityExactly(clock, s4.holders, 0);
    SurvivesDiscontinuityExactly(clock, s4.holders, 1);
    FiveEvents(s0, Attach, Attach, Asked(0, start), Asked(1, start), OnClock(ResetMonotonic(1)));
  }

  lemma TwoLeases(start: Event) returns (s: System)
    requires start == StartLease(Request("l", "c", 10000, 5000, true, true))
    ensures
      var s0 := System(Clock("x", 0, 0, None), []);
      s == SharedNext(SharedNext(SharedNext(SharedNext(s0, Attach).system, Attach).system, Asked(0, start)).system, Asked(1, start)).system
    ensures s.clock == Clock("x", 0, 0, None) && |s.holders| == 2
    ensures
      var lease := Some(Lease("l", "c", "x", 0, 5000, 10000));
      s.holders[0].lease == lease && s.holders[1].lease == lease
  {
    var s0 := System(Clock("x", 0, 0, None), []);
    var s2 := SharedNext(SharedNext(s0, Attach).system, Attach).system;
    assert s2.holders == [FRESH, FRESH];
    var s3 := SharedNext(s2, Asked(0, start)).system;
    s := SharedNext(s3, Asked(1, start)).system;
  }

  lemma FiveEvents(s: System, a: SharedEvent, b: SharedEvent, c: SharedEvent, d: SharedEvent, e: SharedEvent)
    ensures
      SharedAfter(s, [a, b, c, d, e]) ==
        SharedNext(SharedNext(SharedNext(SharedNext(SharedNext(s, a).system, b).system, c).system, d).system, e).system
  {
    hide SharedNext;
    assert [a, b, c, d, e][1..] == [b, c, d, e];
    assert [b, c, d, e][1..] == [c, d, e];
    assert [c, d, e][1..] == [d, e];
    assert [d, e][1..] == [e];
    assert [e][1..] == [];
    var s1 := SharedNext(s, a).system;
    var s2 := SharedNext(s1, b).system;
    var s3 := SharedNext(s2, c).system;
    assert SharedAfter(s3, [d, e]) == SharedAfter(SharedNext(s3, d).system, [e]);
    assert SharedAfter(s2, [c, d, e]) == SharedAfter(s3, [d, e]);
    assert SharedAfter(s1, [b, c, d, e]) == SharedAfter(s2, [c, d, e]);
  }
}
