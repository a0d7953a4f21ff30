/** Whole runs of the authority store: any commands, any crashes, any number of recoveries. */
module AuthorityRuns {
  import opened Wrappers
  import opened AuthorityStore

  /** One lock holder: its command and the number of writes it completes before dying. */
  datatype Event = Event(command: Command, budget: nat)

  function Run(d: Disk, events: seq<Event>): Disk {
    if events == [] then d
    else
      var last := events[|events| - 1];
      Session(Run(d, events[..|events| - 1]), last.command, last.budget).0
  }

  /** The commands of a run that took effect, in order. */
  ghost function Effective(d: Disk, events: seq<Event>): seq<Command> {
    if events == [] then [] else
      var front, last := events[..|events| - 1], events[|events| - 1];
      Effective(d, front) + Taken(Run(d, front), last)
  }

  /** An atomic store executing commands one by one. */
  function AtomicRun(s: AuthorityState, commands: seq<Command>): AuthorityState {
    if commands == [] then s
    else NextState(AtomicRun(s, commands[..|commands| - 1]), commands[|commands| - 1])
  }

  ghost function Taken(d: Disk, e: Event): seq<Command> {
    if Commits(d, e.command, e.budget) then [e.command] else []
  }

  lemma AtomicStep(d: Disk, s: AuthorityState, commands: seq<Command>, e: Event)
    requires Healthy(d) && Logical(d) == AtomicRun(s, commands)
    ensures
      var d' := Session(d, e.command, e.budget).0;
      Healthy(d') && Logical(d') == AtomicRun(s, commands + Taken(d, e))
  {
    hide Session, Healthy, Commits;
    SessionIsAtomic(d, e.command, e.budget);
    assert (commands + [e.command])[..|commands|] == commands;
    assert commands + [] == commands;
  }

  /**
    Over any run the store behaves as an atomic one: it always stands for the result of exactly the
    commands whose journal (or sequence) write was completed, in order.
   */
  lemma {:induction false} RunsAreAtomic(d: Disk, events: seq<Event>)
    requires Healthy(d)
    ensures Healthy(Run(d, events))
    ensures Logical(Run(d, events)) == AtomicRun(Logical(d), Effective(d, events))
  {
    if events != [] {
      var front, last := events[..|events| - 1], events[|events| - 1];
      RunsAreAtomic(d, front);
      AtomicStep(Run(d, front), Logical(d), Effective(d, front), last);
    }
  }

  /** Whatever the run, the files on disk are usable: a dying process leaves no untrusted active key. */
  lemma EveryFileStateIsUsable(d: Disk, events: seq<Event>)
    requires Healthy(d)
    ensures Usable(Run(d, events))
  {
    RunsAreAtomic(d, events);
    HealthyIsUsable(Run(d, events));
  }

  /** After any run, one undisturbed lock holder settles all files on the state the store stands for. */
  lemma NextRecoverySettles(d: Disk, events: seq<Event>, budget: nat)
    requires Healthy(d) && budget >= 5
    ensures
      Session(Run(d, events), ReadOnly, budget) == (Settled(AtomicRun(Logical(d), Effective(d, events))), Done)
  {
    hide Session, Healthy;
    RunsAreAtomic(d, events);
    CompletedRecovery(Run(d, events), budget);
  }

  lemma CompletedRecovery(d: Disk, budget: nat)
    requires Healthy(d) && budget >= 5
    ensures Session(d, ReadOnly, budget) == (Settled(Logical(d)), Done)
  {
    hide Healthy, RecoveryWrites;
    RecoverySettles(d, budget);
    var settled := Settled(Logical(d));
    assert CommandWrites(settled, ReadOnly) == Ok([]);
  }

  ghost predicate OnlyReads(events: seq<Event>) {
    forall i :: 0 <= i < |events| ==> events[i].command == ReadOnly
  }

  /**
    A command cut after any number of writes, then any number of recoveries themselves cut, then one
    completed recovery: all files are from the old state or all are from the new one.
   */
  lemma OldOrNew(s: AuthorityState, c: Command, budget: nat, recoveries: seq<Event>, enough: nat)
    requires Sound(s) && OnlyReads(recoveries) && enough >= 5
    ensures
      var final := Session(Run(Session(Settled(s), c, budget).0, recoveries), ReadOnly, enough).0;
      final == Settled(if Commits(Settled(s), c, budget) then NextState(s, c) else s)
  {
    assert Files(Settled(s)) == s;
    SessionIsAtomic(Settled(s), c, budget);
    var d := Session(Settled(s), c, budget).0;
    NextRecoverySettles(d, recoveries, enough);
    ReadsCommitNothing(d, recoveries);
  }

  lemma {:induction false} ReadsCommitNothing(d: Disk, events: seq<Event>)
    requires OnlyReads(events)
    ensures Effective(d, events) == []
  {
    if events != [] {
      ReadsCommitNothing(d, events[..|events| - 1]);
    }
  }

  /** A surviving journal never disagrees with the sequence file about a key both know. */
  lemma JournalKeepsSequences(d: Disk, kid: string)
    requires Healthy(d) && d.journal.Some? && kid in d.sequence && kid in d.journal.value.sequence
    ensures d.sequence[kid] == d.journal.value.sequence[kid]
  {
  }

  // ---------------------------------------------------------------- allocated sequences

  datatype Allocation = Allocation(kid: string, sequence: nat)

  /** The sequence number one lock holder takes, if its write reaches the disk. */
  ghost function Taking(d: Disk, e: Event): seq<Allocation> {
    var s := Logical(d);
    if Commits(d, e.command, e.budget) && e.command.SignLease? && s.lease.activeKid in s.sequence
    then [Allocation(s.lease.activeKid, s.sequence[s.lease.activeKid] + 1)] else []
  }

  /** Every sequence number whose allocation reached the disk, in order. */
  ghost function Allocated(d: Disk, events: seq<Event>): seq<Allocation> {
    if events == [] then [] else
      var front, last := events[..|events| - 1], events[|events| - 1];
      Allocated(d, front) + Taking(Run(d, front), last)
  }

  function NewKid(c: Command): set<string> {
    if c.Rotate? && c.role == WorkLeaseAuthority then {c.key.kid} else {}
  }

  /** Lease key ids created in a run. */
  function Created(events: seq<Event>): set<string> {
    set i | 0 <= i < |events| && events[i].command.Rotate? && events[i].command.role == WorkLeaseAuthority
      :: events[i].command.key.kid
  }

  /** createAuthority never makes the id of a lease key the store has or had. */
  ghost predicate FreshKids(d: Disk, events: seq<Event>) {
    forall i :: 0 <= i < |events| && events[i].command.Rotate? && events[i].command.role == WorkLeaseAuthority ==>
      events[i].command.key.kid !in Logical(d).sequence && events[i].command.key.kid !in Created(events[..i])
  }

  /** Strictly increasing per key, hence never repeated, and within 64 bits. */
  ghost predicate Increasing(log: seq<Allocation>) {
    && (forall i :: 0 <= i < |log| ==> 1 <= log[i].sequence <= MAXIMUM_SEQUENCE)
    && (forall i, j :: 0 <= i < j < |log| && log[i].kid == log[j].kid ==> log[i].sequence < log[j].sequence)
  }

  /** No key still in use has handed out more than its recorded sequence, and all ids are accounted for. */
  ghost predicate Covered(log: seq<Allocation>, s: AuthorityState, known: set<string>) {
    && s.sequence.Keys <= known
    && forall i :: 0 <= i < |log| ==>
         log[i].kid in known && (log[i].kid in s.sequence ==> log[i].sequence <= s.sequence[log[i].kid])
  }

  lemma {:induction false} SequencesIncrease(d: Disk, events: seq<Event>)
    requires Healthy(d) && FreshKids(d, events)
    ensures Increasing(Allocated(d, events))
    ensures Covered(Allocated(d, events), Logical(Run(d, events)), Logical(d).sequence.Keys + Created(events))
  {
    hide Session, Healthy, Commits, Taking;
    if events != [] {
      var front, last := events[..|events| - 1], events[|events| - 1];
      FreshFront(d, events);
      SequencesIncrease(d, front);
      RunsAreAtomic(d, front);
      CreatedGrows(events);
      var known := Logical(d).sequence.Keys + Created(front);
      assert NewKid(last.command) !! known;
      AllocationStep(Allocated(d, front), Run(d, front), last, known);
      assert Logical(d).sequence.Keys + Created(events) == known + NewKid(last.command);
    }
  }

  lemma AllocationStep(log: seq<Allocation>, d: Disk, e: Event, known: set<string>)
    requires Healthy(d) && Increasing(log) && Covered(log, Logical(d), known) && NewKid(e.command) !! known
    ensures Increasing(log + Taking(d, e))
    ensures Covered(log + Taking(d, e), Logical(Session(d, e.command, e.budget).0), known + NewKid(e.command))
  {
    hide Session, Healthy, CommandWrites, RecoveryWrites;
    SessionIsAtomic(d, e.command, e.budget);
    var s := Logical(d);
    assert log + [] == log;
    if !Commits(d, e.command, e.budget) {
    } else if e.command.SignLease? {
      SigningWrite(s, e.command);
      SigningCovers(log, s, known);
    } else {
      OtherCommandCovers(log, s, e.command, known);
    }
  }

  lemma FreshFront(d: Disk, events: seq<Event>)
    requires events != [] && FreshKids(d, events)
    ensures FreshKids(d, events[..|events| - 1])
  {
    var front := events[..|events| - 1];
    forall i | 0 <= i < |front| && front[i].command.Rotate? && front[i].command.role == WorkLeaseAuthority
      ensures front[i].command.key.kid !in Logical(d).sequence && front[i].command.key.kid !in Created(front[..i])
    {
      assert front[i] == events[i] && front[..i] == events[..i];
    }
  }

  ghost predicate CreatedAt(events: seq<Event>, i: int, k: string) {
    0 <= i < |events| && k in NewKid(events[i].command)
  }

  lemma CreatedMember(events: seq<Event>, k: string)
    ensures k in Created(events) <==> exists i :: CreatedAt(events, i, k)
  {
    if k in Created(events) {
      var i :| 0 <= i < |events| && events[i].command.Rotate? && events[i].command.role == WorkLeaseAuthority && events[i].command.key.kid == k;
      assert CreatedAt(events, i, k);
    }
  }

  lemma CreatedGrows(events: seq<Event>)
    requires events != []
    ensures Created(events) == Created(events[..|events| - 1]) + NewKid(events[|events| - 1].command)
  {
    var front, last := events[..|events| - 1], events[|events| - 1];
    forall k ensures k in Created(events) <==> k in Created(front) || k in NewKid(last.command) {
      CreatedMember(events, k);
      CreatedMember(front, k);
      if i :| CreatedAt(front, i, k) {
        assert CreatedAt(events, i, k);
      }
      if i :| CreatedAt(events, i, k) {
        assert i < |front| ==> CreatedAt(front, i, k);
      }
      if k in NewKid(last.command) {
        assert CreatedAt(events, |front|, k);
      }
    }
  }

  /** Handing out the next number of the active key keeps the log increasing. */
  lemma SigningCovers(log: seq<Allocation>, s: AuthorityState, known: set<string>)
    requires Increasing(log) && Covered(log, s, known)
    requires s.lease.activeKid in s.sequence && s.sequence[s.lease.activeKid] < MAXIMUM_SEQUENCE
    ensures
      var log' := log + [Allocation(s.lease.activeKid, s.sequence[s.lease.activeKid] + 1)];
      Increasing(log') && Covered(log', s.(sequence := s.sequence[s.lease.activeKid := s.sequence[s.lease.activeKid] + 1]), known)
  {
  }

  /** Rotation brings in a fresh id and retirement drops one; neither lowers a kept sequence. */
  lemma OtherCommandCovers(log: seq<Allocation>, s: AuthorityState, c: Command, known: set<string>)
    requires Covered(log, s, known) && (c.Rotate? || c.Retire?)
    requires NewKid(c) !! known
    ensures Covered(log, NextState(s, c), known + NewKid(c))
  {
  }

  // ---------------------------------------------------------------- when a rotation is refused

  /** The key shares neither its id nor its public part with any of these. */
  ghost predicate NewTo(keys: seq<Key>, key: Key) {
    forall i :: 0 <= i < |keys| ==> keys[i].kid != key.kid && keys[i].x != key.x
  }

  /** A rotation is accepted exactly with a well-formed id, a key new to both roles, and fewer than eight
      keys in its own. */
  lemma RotationRefusedExactly(s: AuthorityState, role: Role, key: Key)
    requires Sound(s)
    ensures CommandWrites(Settled(s), Rotate(role, key)).Ok? <==>
      && ValidKid(key.kid) && NewTo(s.update.keys, key) && NewTo(s.lease.keys, key)
      && |if role == UpdateAuthority then s.update.keys else s.lease.keys| < 8
  {
    hide ValidKid, NewTo, HasKid, ValidKeys, Apart, SameKeyIds;
    assert Files(Settled(s)) == s;
    var keys := if role == UpdateAuthority then s.update.keys else s.lease.keys;
    NewKeyFits(keys, key);
    NewKeyApart(s.update.keys, s.lease.keys, key);
    if role == WorkLeaseAuthority && NewTo(keys, key) {
      NewKeyIds(keys, s.sequence, key);
    }
  }

  lemma NewKeyFits(keys: seq<Key>, key: Key)
    requires ValidKeys(keys)
    ensures ValidKeys(keys + [key]) <==> ValidKid(key.kid) && NewTo(keys, key) && |keys| < 8
  {
    hide ValidKid;
    var more, n := keys + [key], |keys|;
    assert more[n] == key && forall i :: 0 <= i < n ==> more[i] == keys[i];
  }

  lemma NewKeyApart(updateKeys: seq<Key>, leaseKeys: seq<Key>, key: Key)
    requires Apart(updateKeys, leaseKeys)
    ensures Apart(updateKeys + [key], leaseKeys) <==> NewTo(leaseKeys, key)
    ensures Apart(updateKeys, leaseKeys + [key]) <==> NewTo(updateKeys, key)
  {
    assert (updateKeys + [key])[|updateKeys|] == key && (leaseKeys + [key])[|leaseKeys|] == key;
    assert forall i :: 0 <= i < |updateKeys| ==> (updateKeys + [key])[i] == updateKeys[i];
    assert forall i :: 0 <= i < |leaseKeys| ==> (leaseKeys + [key])[i] == leaseKeys[i];
  }

  lemma NewKeyIds(keys: seq<Key>, sequence: map<string, nat>, key: Key)
    requires SameKeyIds(keys, sequence) && NewTo(keys, key)
    ensures SameKeyIds(keys + [key], sequence[key.kid := 0])
  {
    var keys' := keys + [key];
    forall kid ensures kid in Kids(keys') <==> kid in Kids(keys) || kid == key.kid {
      KidsMember(keys, kid);
      KidsMember(keys', kid);
      assert keys'[|keys|] == key;
      assert forall i :: 0 <= i < |keys| ==> keys'[i] == keys[i];
    }
    assert key.kid !in Kids(keys);
  }

  // ---------------------------------------------------------------- when a retirement is refused

  /** A retirement is refused exactly for the active key and for keys the role does not have; the
      checks before the journal never refuse it. */
  lemma RetirementRefusedExactly(s: AuthorityState, role: Role, kid: string)
    requires Sound(s)
    ensures
      var target := if role == UpdateAuthority then s.update else s.lease;
      CommandWrites(Settled(s), Retire(role, kid)).Ok? <==> kid != target.activeKid && HasKid(target.keys, kid)
  {
    hide ValidKeys, HasKid, Kids, ValidKid, Apart, SameKeyIds;
    assert Files(Settled(s)) == s;
    var target := if role == UpdateAuthority then s.update else s.lease;
    if kid != target.activeKid && HasKid(target.keys, kid) {
      MemberIsValid(target.keys, kid);
      RetiredKeys(target.keys, kid, target.activeKid);
      RetiredApart(s.update.keys, s.lease.keys, kid);
      if role == WorkLeaseAuthority {
        RetiredKeyIds(s.lease.keys, s.sequence, kid);
      }
    }
  }

  lemma MemberIsValid(keys: seq<Key>, kid: string)
    requires ValidKeys(keys) && HasKid(keys, kid)
    ensures ValidKid(kid)
  {
    hide ValidKid;
  }

  lemma RetiredApart(updateKeys: seq<Key>, leaseKeys: seq<Key>, kid: string)
    requires Apart(updateKeys, leaseKeys)
    ensures Apart(WithoutKid(updateKeys, kid), leaseKeys) && Apart(updateKeys, WithoutKid(leaseKeys, kid))
  {
    forall k: Key ensures k in WithoutKid(updateKeys, kid) ==> k in updateKeys {
      WithoutKidMembers(updateKeys, kid, k);
    }
    forall k: Key ensures k in WithoutKid(leaseKeys, kid) ==> k in leaseKeys {
      WithoutKidMembers(leaseKeys, kid, k);
    }
    ApartMembers(updateKeys, leaseKeys, WithoutKid(updateKeys, kid), leaseKeys);
    ApartMembers(updateKeys, leaseKeys, updateKeys, WithoutKid(leaseKeys, kid));
  }

  lemma ApartMembers(us: seq<Key>, ls: seq<Key>, us': seq<Key>, ls': seq<Key>)
    requires Apart(us, ls) && (forall k :: k in us' ==> k in us) && (forall k :: k in ls' ==> k in ls)
    ensures Apart(us', ls')
  {
    forall i, j | 0 <= i < |us'| && 0 <= j < |ls'| ensures us'[i].kid != ls'[j].kid && us'[i].x != ls'[j].x {
      assert us'[i] in us && ls'[j] in ls;
    }
  }

  lemma RetiredKeyIds(keys: seq<Key>, sequence: map<string, nat>, kid: string)
    requires ValidKeys(keys) && HasKid(keys, kid) && SameKeyIds(keys, sequence)
    ensures SameKeyIds(WithoutKid(keys, kid), sequence - {kid})
  {
    WithoutKidKids(keys, kid);
    KidsMember(keys, kid);
    DistinctCount(keys);
    WithoutKidDistinct(keys, kid);
    DistinctCount(WithoutKid(keys, kid));
    assert (sequence - {kid}).Keys == sequence.Keys - {kid};
    assert |sequence.Keys| == |sequence| && |(sequence - {kid}).Keys| == |sequence - {kid}|;
  }

  lemma {:induction false} DistinctCount(keys: seq<Key>)
    requires forall i, j :: 0 <= i < j < |keys| ==> keys[i].kid != keys[j].kid
    ensures |Kids(keys)| == |keys|
  {
    if keys != [] {
      var front, last := keys[..|keys| - 1], keys[|keys| - 1];
      DistinctCount(front);
      KidsMember(front, last.kid);
      assert Kids(keys) == Kids(front) + {last.kid} by {
        KidsGrow(keys);
      }
    }
  }

  lemma KidsGrow(keys: seq<Key>)
    requires keys != []
    ensures Kids(keys) == Kids(keys[..|keys| - 1]) + {keys[|keys| - 1].kid}
  {
    var n := |keys| - 1;
    forall k ensures k in Kids(keys) <==> k in Kids(keys[..n]) || k == keys[n].kid {
      if k in Kids(keys[..n]) {
        var i :| 0 <= i < n && keys[..n][i].kid == k;
        assert keys[i].kid == k;
      }
      if k in Kids(keys) {
        var i :| 0 <= i < |keys| && keys[i].kid == k;
        assert i < n ==> keys[..n][i].kid == k;
      }
    }
  }
}
