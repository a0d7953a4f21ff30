/**
  The commands as the script runs them: files replaced one write at a time, with a process that may
  die before any of them.  Every method is proved to do what module AuthorityStore says.
 */
module AuthorityProcess {
  import opened Wrappers
  import opened AuthorityStore

  /** The authority directory, seen by one lock holder that completes `remaining` more writes. */
  class AuthorityDirectory {
    var trust: Trust
    var sequence: map<string, nat>
    var update: PrivateAuthority
    var lease: PrivateAuthority
    var maybeJournal: Option<AuthorityState>
    var remaining: nat

    ghost function View(): Disk
      reads this
    {
      Disk(trust, sequence, update, lease, maybeJournal)
    }

    constructor (d: Disk, budget: nat)
      ensures View() == d && remaining == budget
    {
      trust, sequence, update, lease, maybeJournal := d.trust, d.sequence, d.update, d.lease, d.journal;
      remaining := budget;
    }

    /** One atomic file replacement or removal; false when the process dies first. */
    method TryWrite(w: Write) returns (alive: bool)
      modifies this
      ensures alive == (old(remaining) > 0)
      ensures View() == if alive then ApplyWrite(old(View()), w) else old(View())
      ensures remaining == if alive then old(remaining) - 1 else 0
    {
      if remaining == 0 {
        return false;
      }
      remaining := remaining - 1;
      match w {
        case WriteJournal(s) => maybeJournal := Some(s);
        case WriteTrust(t) => trust := t;
        case WriteSequence(s) => sequence := s;
        case WriteUpdate(a) => update := a;
        case WriteLease(a) => lease := a;
        case RemoveJournal => maybeJournal := None;
      }
      alive := true;
    }

    /** The steps of applyAuthorityState followed by removing the journal. */
    method ApplyAuthorityStateAndUnlink(state: AuthorityState) returns (alive: bool)
      requires PublicTrust(state.update, state.lease).Ok?
      modifies this
      ensures View() == Perform(old(View()), StateWrites(state) + [RemoveJournal], old(remaining))
      ensures alive == (old(remaining) >= 5)
      ensures alive ==> remaining == old(remaining) - 5
    {
      ghost var d0, budget, ws := View(), remaining, StateWrites(state) + [RemoveJournal];
      var published := PublicTrust(state.update, state.lease);
      alive := TryWrite(WriteTrust(published.value));
      CutStep(d0, ws, 0, budget);
      if !alive { return; }
      alive := TryWrite(WriteSequence(state.sequence));
      CutStep(d0, ws, 1, budget);
      if !alive { return; }
      alive := TryWrite(WriteUpdate(state.update));
      CutStep(d0, ws, 2, budget);
      if !alive { return; }
      alive := TryWrite(WriteLease(state.lease));
      CutStep(d0, ws, 3, budget);
      if !alive { return; }
      alive := TryWrite(RemoveJournal);
      CutStep(d0, ws, 4, budget);
      assert ws[..5] == ws;
    }

    method CommitAuthorityState(state: AuthorityState) returns (outcome: Outcome)
      modifies this
      ensures
        match CommitWrites(state)
        case Err(e) => outcome == Failed(e) && View() == old(View()) && remaining == old(remaining)
        case Ok(ws) => View() == Perform(old(View()), ws, old(remaining)) && outcome == if old(remaining) < 6 then Crashed else Done
    {
      if PublicTrust(state.update, state.lease).Err? {
        return Failed(TrustInvalid);
      }
      if !SameKeyIds(state.lease.keys, state.sequence) {
        return Failed(AuthorityStateInvalid);
      }
      ghost var d0, budget := View(), remaining;
      var alive := TryWrite(WriteJournal(state));
      PerformHead(d0, WriteJournal(state), StateWrites(state) + [RemoveJournal], budget);
      assert CommitWrites(state).value == [WriteJournal(state)] + (StateWrites(state) + [RemoveJournal]);
      if alive {
        alive := ApplyAuthorityStateAndUnlink(state);
      }
      outcome := if alive then Done else Crashed;
    }

    method RecoverAuthorityJournal() returns (outcome: Outcome)
      modifies this
      ensures
        match RecoveryWrites(old(View()))
        case Err(e) => outcome == Failed(e) && View() == old(View())
        case Ok(ws) =>
          && View() == Perform(old(View()), ws, old(remaining))
          && outcome == (if old(remaining) < |ws| then Crashed else Done)
          && (outcome == Done ==> remaining == old(remaining) - |ws|)
    {
      if maybeJournal.None? {
        return Done;
      }
      var state := maybeJournal.value;
      if !ParsesAs(state.update, UpdateAuthority) || !ParsesAs(state.lease, WorkLeaseAuthority) {
        return Failed(PrivateAuthorityInvalid);
      }
      if !ParsesAsSequence(state.sequence) {
        return Failed(SequenceStateInvalid);
      }
      if PublicTrust(state.update, state.lease).Err? {
        return Failed(TrustInvalid);
      }
      if !SameKeyIds(state.lease.keys, state.sequence) {
        return Failed(AuthorityStateInvalid);
      }
      var alive := ApplyAuthorityStateAndUnlink(state);
      outcome := if alive then Done else Crashed;
    }

    method RotateAuthority(role: Role, key: Key) returns (outcome: Outcome)
      modifies this
      ensures CommandOutcome(old(View()), Rotate(role, key), old(remaining), View(), outcome)
    {
      if !ParsesAs(update, UpdateAuthority) || !ParsesAs(lease, WorkLeaseAuthority) {
        return Failed(PrivateAuthorityInvalid);
      }
      var target := if role == UpdateAuthority then update else lease;
      var next := target.(activeKid := key.kid, keys := target.keys + [key]);
      if !ParsesAsSequence(sequence) {
        return Failed(SequenceStateInvalid);
      }
      var sequenceState := sequence;
      if role == WorkLeaseAuthority {
        sequenceState := sequenceState[key.kid := 0];
      }
      outcome := CommitAuthorityState(AuthorityState(
        if role == UpdateAuthority then next else update,
        if role == WorkLeaseAuthority then next else lease,
        sequenceState));
    }

    method RetireAuthority(role: Role, kid: string) returns (outcome: Outcome)
      modifies this
      ensures CommandOutcome(old(View()), Retire(role, kid), old(remaining), View(), outcome)
    {
      if !ValidKid(kid) {
        return Failed(KeyIdInvalid);
      }
      if !ParsesAs(update, UpdateAuthority) || !ParsesAs(lease, WorkLeaseAuthority) {
        return Failed(PrivateAuthorityInvalid);
      }
      var target := if role == UpdateAuthority then update else lease;
      if target.activeKid == kid || !HasKid(target.keys, kid) {
        return Failed(KeyNotRetirable);
      }
      var retired := target.(keys := WithoutKid(target.keys, kid));
      if !ParsesAsSequence(sequence) {
        return Failed(SequenceStateInvalid);
      }
      var sequenceState := sequence;
      if role == WorkLeaseAuthority {
        sequenceState := sequenceState - {kid};
      }
      outcome := CommitAuthorityState(AuthorityState(
        if role == UpdateAuthority then retired else update,
        if role == WorkLeaseAuthority then retired else lease,
        sequenceState));
    }

    /** The allocation inside signLeaseAuthorization; the signature itself is not modelled. */
    method SignLeaseAuthorization(operationMatches: bool) returns (outcome: Outcome)
      modifies this
      ensures CommandOutcome(old(View()), SignLease(operationMatches), old(remaining), View(), outcome)
    {
      if !ParsesAs(lease, WorkLeaseAuthority) {
        return Failed(PrivateAuthorityInvalid);
      }
      if !operationMatches {
        return Failed(OperationMismatch);
      }
      if !ParsesAsSequence(sequence) || lease.activeKid !in sequence {
        return Failed(SequenceStateInvalid);
      }
      var next := sequence[lease.activeKid] + 1;
      if next > MAXIMUM_SEQUENCE {
        return Failed(SequenceExhausted);
      }
      ghost var d0, budget := View(), remaining;
      var w := WriteSequence(sequence[lease.activeKid := next]);
      var alive := TryWrite(w);
      PerformOne(d0, w, budget);
      outcome := if alive then Done else Crashed;
    }

    /** withAuthorityLock around one command. */
    method WithAuthorityLock(c: Command) returns (outcome: Outcome)
      modifies this
      ensures (View(), outcome) == Session(old(View()), c, old(remaining))
    {
      hide CommandWrites, RecoveryWrites, Perform;
      outcome := RecoverAuthorityJournal();
      if outcome != Done {
        return;
      }
      match c {
        case Rotate(role, key) => outcome := RotateAuthority(role, key);
        case Retire(role, kid) => outcome := RetireAuthority(role, kid);
        case SignLease(operationMatches) => outcome := SignLeaseAuthorization(operationMatches);
        case ReadOnly => ReadingWritesNothing(View(), remaining);
      }
    }
  }

  /** What one command, without recovery, leaves behind. */
  ghost predicate CommandOutcome(d: Disk, c: Command, budget: nat, d': Disk, outcome: Outcome) {
    match CommandWrites(d, c)
    case Err(e) => outcome == Failed(e) && d' == d
    case Ok(ws) => d' == Perform(d, ws, budget) && outcome == if budget < |ws| then Crashed else Done
  }

  lemma ReadingWritesNothing(d: Disk, budget: nat)
    ensures CommandWrites(d, ReadOnly) == Ok([]) && Perform(d, [], budget) == d
  {
  }

  /** Extending a cut write list by its next write. */
  lemma CutStep(d: Disk, ws: seq<Write>, k: nat, budget: nat)
    requires k < |ws|
    ensures ApplyWrites(d, ws[..k + 1]) == ApplyWrite(ApplyWrites(d, ws[..k]), ws[k])
    ensures ApplyWrites(d, ws[..0]) == d
    ensures budget == k ==> Perform(d, ws, budget) == ApplyWrites(d, ws[..k])
    ensures budget >= |ws| ==> Perform(d, ws, budget) == ApplyWrites(d, ws[..|ws|])
  {
    assert ws[..k + 1] == ws[..k] + [ws[k]];
    ApplyWritesAppend(d, ws[..k], ws[k]);
    assert ws[..|ws|] == ws;
  }
}
