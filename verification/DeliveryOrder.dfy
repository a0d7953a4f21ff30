/**
  What delivery order and duplication can change about a challenge: nothing, as long as no sum can
  leave 256 bits.  The bound on the requirement is exact.
 */
module DeliveryOrder {
  import opened Wrappers
  import opened Digits
  import opened Uint256Arithmetic
  import opened Work
  import opened Progress

  /** An event id names one event, a share fingerprint one target. */
  ghost predicate Coherent(events: seq<AcceptedWorkEvent>) {
    forall i, j :: 0 <= i < |events| && 0 <= j < |events| ==>
      && (events[i].eventId == events[j].eventId ==> MatchesAuthoritativeReplay(events[i], events[j]))
      && (events[i].fingerprint == events[j].fingerprint ==> events[i].target == events[j].target)
  }

  /** Work by distinct fingerprint. */
  ghost function Shares(events: seq<AcceptedWorkEvent>): map<string, nat> {
    if events == [] then map[]
    else Shares(events[..|events| - 1])[events[|events| - 1].fingerprint := Value(CreditOf(events[|events| - 1]))]
  }

  ghost function TotalWork(events: seq<AcceptedWorkEvent>): nat {
    Total(Shares(events))
  }

  /** Delivering a list of events, one after the other, to a projection that knows their sessions. */
  ghost function DeliverAll(l: Ledger, events: seq<AcceptedWorkEvent>): Ledger {
    if events == [] then l else Accept(DeliverAll(l, events[..|events| - 1]), events[|events| - 1], false).0
  }

  ghost function Sessions(events: seq<AcceptedWorkEvent>): set<string> {
    set i | 0 <= i < |events| :: events[i].sessionId
  }

  ghost function Opened(requirement: CreditedWork, events: seq<AcceptedWorkEvent>): Ledger {
    InitialLedger(requirement).(sessions := Sessions(events))
  }

  /** The promise: satisfied exactly when the distinct shares add up to the requirement. */
  ghost predicate SatisfiedByTotal(requirement: CreditedWork, events: seq<AcceptedWorkEvent>) {
    Satisfied(DeliverAll(Opened(requirement, events), events)) <==> TotalWork(events) >= Value(requirement)
  }

  /** Every record is one of the events delivered so far. */
  ghost predicate Traced(l: Ledger, done: seq<AcceptedWorkEvent>) {
    forall id :: id in l.records ==> exists k :: 0 <= k < |done| && l.records[id].event == done[k] && done[k].eventId == id
  }

  /** Until the challenge is satisfied, progress and fingerprints follow the deliveries. */
  ghost predicate Counted(l: Ledger, done: seq<AcceptedWorkEvent>) {
    if Satisfied(l) then TotalWork(done) >= Value(l.requirement)
    else Value(l.progress) == TotalWork(done) && l.fingerprints == Shares(done).Keys
  }

  ghost predicate Follows(l: Ledger, requirement: CreditedWork, done: seq<AcceptedWorkEvent>, sessions: set<string>) {
    l.requirement == requirement && l.sessions == sessions && Traced(l, done) && Counted(l, done)
  }

  lemma CoherentPrefix(events: seq<AcceptedWorkEvent>, k: nat)
    requires Coherent(events) && k <= |events|
    ensures Coherent(events[..k])
  {
  }

  lemma {:induction false} SharesLookup(events: seq<AcceptedWorkEvent>, k: nat)
    requires Coherent(events) && k < |events|
    ensures events[k].fingerprint in Shares(events)
    ensures Shares(events)[events[k].fingerprint] == Value(CreditOf(events[k]))
  {
    var n := |events| - 1;
    if k < n && events[k].fingerprint != events[n].fingerprint {
      SharesLookup(events[..n], k);
    }
  }

  /** A counted fingerprint was delivered. */
  lemma {:induction false} FindShare(events: seq<AcceptedWorkEvent>, f: string) returns (k: nat)
    requires f in Shares(events)
    ensures k < |events| && events[k].fingerprint == f
  {
    k := |events| - 1;
    if events[k].fingerprint != f {
      k := FindShare(events[..|events| - 1], f);
    }
  }

  lemma SameShareSameCredit(events: seq<AcceptedWorkEvent>, i: nat, j: nat)
    requires Coherent(events) && i < |events| && j < |events| && events[i].fingerprint == events[j].fingerprint
    ensures Value(CreditOf(events[i])) == Value(CreditOf(events[j]))
  {
    assert events[i].target == events[j].target;
  }

  /** A share seen before adds nothing. */
  lemma OldShare(events: seq<AcceptedWorkEvent>)
    requires events != [] && Coherent(events)
    requires events[|events| - 1].fingerprint in Shares(events[..|events| - 1])
    ensures Shares(events) == Shares(events[..|events| - 1])
  {
    var n := |events| - 1;
    var f := events[n].fingerprint;
    var k := FindShare(events[..n], f);
    CoherentPrefix(events, n);
    SharesLookup(events[..n], k);
    SameShareSameCredit(events, k, n);
    NothingNew(Shares(events[..n]), f, Value(CreditOf(events[n])));
  }

  lemma NothingNew(m: map<string, nat>, f: string, v: nat)
    requires f in m && m[f] == v
    ensures m[f := v] == m
  {
  }

  /** A new share adds its work. */
  lemma NewShare(events: seq<AcceptedWorkEvent>)
    requires events != [] && events[|events| - 1].fingerprint !in Shares(events[..|events| - 1])
    ensures TotalWork(events) == TotalWork(events[..|events| - 1]) + Value(CreditOf(events[|events| - 1]))
  {
    var n := |events| - 1;
    TotalInsert(Shares(events[..n]), events[n].fingerprint, Value(CreditOf(events[n])));
  }

  lemma TotalGrows(events: seq<AcceptedWorkEvent>)
    requires events != [] && Coherent(events)
    ensures TotalWork(events[..|events| - 1]) <= TotalWork(events)
  {
    if events[|events| - 1].fingerprint in Shares(events[..|events| - 1]) {
      OldShare(events);
    } else {
      NewShare(events);
    }
  }

  /** No sum overflows: either the requirement or the total leaves room. */
  ghost predicate Room(requirement: CreditedWork, events: seq<AcceptedWorkEvent>) {
    Value(requirement) <= TWO_256 / 2 || TotalWork(events) < TWO_256
  }

  lemma DeliverOne(l: Ledger, requirement: CreditedWork, events: seq<AcceptedWorkEvent>, sessions: set<string>)
    requires events != [] && Coherent(events) && Room(requirement, events)
    requires events[|events| - 1].sessionId in sessions
    requires Follows(l, requirement, events[..|events| - 1], sessions)
    ensures Follows(Accept(l, events[|events| - 1], false).0, requirement, events, sessions)
  {
    var e := events[|events| - 1];
    AcceptRecords(l, e, false);
    TracedAfter(l, events);
    CountedAfter(l, events);
  }

  lemma TracedAfter(l: Ledger, events: seq<AcceptedWorkEvent>)
    requires events != [] && Traced(l, events[..|events| - 1])
    ensures Traced(Accept(l, events[|events| - 1], false).0, events)
  {
    var n := |events| - 1;
    var done, l' := events[..n], Accept(l, events[n], false).0;
    AcceptRecords(l, events[n], false);
    forall id | id in l'.records
      ensures exists k :: 0 <= k < |events| && l'.records[id].event == events[k] && events[k].eventId == id
    {
      if id in l.records {
        var k :| 0 <= k < n && l.records[id].event == done[k] && done[k].eventId == id;
        assert l'.records[id].event == events[k];
      } else {
        assert l'.records[id].event == events[n];
      }
    }
  }

  lemma CountedAfter(l: Ledger, events: seq<AcceptedWorkEvent>)
    requires events != [] && Coherent(events) && Room(l.requirement, events)
    requires Traced(l, events[..|events| - 1]) && Counted(l, events[..|events| - 1])
    requires events[|events| - 1].sessionId in l.sessions
    ensures Counted(Accept(l, events[|events| - 1], false).0, events)
  {
    var n := |events| - 1;
    var e := events[n];
    TotalGrows(events);
    if e.eventId in l.records {
      ReplayedShareIsOld(l, events);
      OldShare(events);
    } else if Satisfied(l) {
      assert Satisfied(Accept(l, e, false).0);
    } else if e.fingerprint in l.fingerprints {
      OldShare(events);
    } else {
      NewShare(events);
      assert Value(l.progress) + Value(CreditOf(e)) == TotalWork(events);
    }
  }

  lemma ReplayedShareIsOld(l: Ledger, events: seq<AcceptedWorkEvent>)
    requires events != [] && Coherent(events) && Traced(l, events[..|events| - 1])
    requires events[|events| - 1].eventId in l.records
    ensures events[|events| - 1].fingerprint in Shares(events[..|events| - 1])
  {
    var n := |events| - 1;
    var done, id := events[..n], events[n].eventId;
    var k :| 0 <= k < n && l.records[id].event == done[k] && done[k].eventId == id;
    assert MatchesAuthoritativeReplay(events[k], events[n]);
    CoherentPrefix(events, n);
    SharesLookup(done, k);
  }

  lemma {:induction false} DeliverMany(requirement: CreditedWork, events: seq<AcceptedWorkEvent>, k: nat)
    requires k <= |events| && Coherent(events) && Room(requirement, events)
    ensures Follows(DeliverAll(Opened(requirement, events), events[..k]), requirement, events[..k], Sessions(events))
  {
    var sessions := Sessions(events);
    if k == 0 {
      InitialConsistent(requirement);
      Constants();
    } else {
      DeliverMany(requirement, events, k - 1);
      var done := events[..k];
      assert done[..k - 1] == events[..k - 1];
      assert events[k - 1].sessionId in sessions;
      PrefixHasRoom(requirement, events, k);
      DeliverOne(DeliverAll(Opened(requirement, events), events[..k - 1]), requirement, done, sessions);
    }
  }

  lemma {:induction false} PrefixHasRoom(requirement: CreditedWork, events: seq<AcceptedWorkEvent>, k: nat)
    requires k <= |events| && Coherent(events) && Room(requirement, events)
    ensures Room(requirement, events[..k])
    decreases |events|
  {
    if k < |events| {
      var n := |events| - 1;
      TotalGrows(events);
      CoherentPrefix(events, n);
      PrefixHasRoom(requirement, events[..n], k);
      assert events[..n][..k] == events[..k];
    } else {
      assert events[..k] == events;
    }
  }

  /**
    After any delivery order with any duplication, the challenge is satisfied exactly when the
    distinct shares reach the requirement, if the requirement is at most 2^255 or the total stays
    below 2^256.
   */
  lemma SatisfiedExactlyByTotal(requirement: CreditedWork, events: seq<AcceptedWorkEvent>)
    requires Coherent(events) && Room(requirement, events)
    ensures SatisfiedByTotal(requirement, events)
  {
    DeliverMany(requirement, events, |events|);
    assert events[..|events|] == events;
  }

  /** Two deliveries of the same events, in any order and multiplicity, agree. */
  lemma OrderDoesNotMatter(requirement: CreditedWork, first: seq<AcceptedWorkEvent>, second: seq<AcceptedWorkEvent>)
    requires Coherent(first) && Coherent(second) && Room(requirement, first)
    requires forall e :: e in first <==> e in second
    ensures Satisfied(DeliverAll(Opened(requirement, first), first))
      <==> Satisfied(DeliverAll(Opened(requirement, second), second))
  {
    SharesIncluded(first, second);
    SharesIncluded(second, first);
    assert Shares(first) == Shares(second);
    SatisfiedExactlyByTotal(requirement, first);
    SatisfiedExactlyByTotal(requirement, second);
  }

  lemma SharesIncluded(first: seq<AcceptedWorkEvent>, second: seq<AcceptedWorkEvent>)
    requires Coherent(first) && Coherent(second)
    requires forall e :: e in first ==> e in second
    ensures forall f :: f in Shares(first) ==> f in Shares(second) && Shares(first)[f] == Shares(second)[f]
  {
    forall f | f in Shares(first) ensures f in Shares(second) && Shares(first)[f] == Shares(second)[f] {
      var k := FindShare(first, f);
      assert first[k] in second;
      var j :| 0 <= j < |second| && second[j] == first[k];
      SharesLookup(first, k);
      SharesLookup(second, j);
    }
  }

  // ---------------------------------------------------------------- the bound is exact

  /** A share of target 1, worth 2^255. */
  function HalfShare(name: string): AcceptedWorkEvent {
    AcceptedWorkEvent(name, "session", TARGET_ONE, 1, name, BelowNetworkTarget, None)
  }

  const TARGET_ONE: AssignedTarget :=
    var b: seq<Byte> := ZERO_BYTES[31 := 1];
    assert b[31] != ZERO_BYTES[31];
    b

  lemma HalfShareWork(name: string)
    ensures Value(CreditOf(HalfShare(name))) == TWO_256 / 2
  {
    var front: seq<nat> := TARGET_ONE[..31];
    assert forall i :: 0 <= i < 31 ==> front[i] == ZERO_BYTES[i] == 0;
    AllZero(front);
    assert TARGET_ONE == front + [1];
    NumeralAppendOne(front, 1, 256);
  }

  lemma HalfSharesTotal()
    ensures TotalWork([HalfShare("a"), HalfShare("b")]) == TWO_256
  {
    var a, b := HalfShare("a"), HalfShare("b");
    HalfShareWork("a");
    HalfShareWork("b");
    assert [a, b][..1] == [a] && [a][..0] == [];
    assert Shares([a]) == map["a" := TWO_256 / 2];
    NewShare([a]);
    assert "a"[0] != "b"[0];
    NewShare([a, b]);
  }

  lemma SecondHalfOverflows(l: Ledger)
    requires l.requirement != ZERO && Value(l.requirement) > TWO_256 / 2 && Value(l.progress) == TWO_256 / 2
    requires "b" !in l.records && "b" !in l.fingerprints && "session" in l.sessions
    ensures Accept(l, HalfShare("b"), false) == (l, Err(InvalidWork(CreditedWorkOverflow)))
  {
    HalfShareWork("b");
  }

  lemma FirstHalfCounts(requirement: CreditedWork, sessions: set<string>)
    requires Value(requirement) > TWO_256 / 2 && "session" in sessions
    ensures
      var l := Accept(InitialLedger(requirement).(sessions := sessions), HalfShare("a"), false).0;
      Value(l.progress) == TWO_256 / 2 && l.requirement == requirement && l.sessions == sessions
      && l.records.Keys == {"a"} && l.fingerprints == {"a"}
  {
    HalfShareWork("a");
    Constants();
  }

  /** Above 2^255 two half shares are enough work but the second is refused for overflow. */
  lemma OverflowRefusesSatisfaction(requirement: CreditedWork)
    requires Value(requirement) > TWO_256 / 2
    ensures
      var events := [HalfShare("a"), HalfShare("b")];
      Coherent(events) && TotalWork(events) == TWO_256 && !SatisfiedByTotal(requirement, events)
  {
    var a, b := HalfShare("a"), HalfShare("b");
    var events := [a, b];
    HalfSharesTotal();
    ValueBound(requirement);
    assert "a"[0] != "b"[0];
    var l0 := Opened(requirement, events);
    assert events[0].sessionId in l0.sessions;
    FirstHalfCounts(requirement, l0.sessions);
    var l1 := Accept(l0, a, false).0;
    assert events[..1] == [a] && [a][..0] == [];
    assert DeliverAll(l0, [a]) == Accept(DeliverAll(l0, []), a, false).0 == l1;
    SecondHalfOverflows(l1);
    assert DeliverAll(l0, events) == Accept(DeliverAll(l0, [a]), b, false).0 == l1;
  }

  /** The promise holds for every delivery exactly when the requirement is at most 2^255. */
  lemma OrderLawExactly(requirement: CreditedWork)
    ensures (forall events | Coherent(events) :: SatisfiedByTotal(requirement, events))
      <==> Value(requirement) <= TWO_256 / 2
  {
    if Value(requirement) <= TWO_256 / 2 {
      forall events | Coherent(events) ensures SatisfiedByTotal(requirement, events) {
        SatisfiedExactlyByTotal(requirement, events);
      }
    } else {
      OverflowRefusesSatisfaction(requirement);
    }
  }
}
