/** What the files hold after a command that completed, said of the files themselves. */
module AuthorityResults {
  import opened Wrappers
  import opened AuthorityStore

  /** A lock holder that is done leaves no journal and exactly the state of its command. */
  lemma CompletedSession(d: Disk, c: Command, budget: nat)
    requires Healthy(d) && Session(d, c, budget).1 == Done
    ensures
      var s := Logical(d);
      && Sound(s) && CommandWrites(Settled(s), c).Ok?
      && Session(d, c, budget).0 == Settled(if c.ReadOnly? then s else NextState(s, c))
  {
    hide Healthy, RecoveryWrites, CommandWrites, Perform, NextState, Sound;
    RecoverySettles(d, budget);
    var s, n := Logical(d), |RecoveryWrites(d).value|;
    if budget >= n && CommandWrites(Settled(s), c).Ok? && budget - n >= |CommandWrites(Settled(s), c).value| {
      CompletedCommand(s, c, budget - n);
    }
  }

  lemma CompletedCommand(s: AuthorityState, c: Command, budget: nat)
    requires Sound(s) && CommandWrites(Settled(s), c).Ok? && budget >= |CommandWrites(Settled(s), c).value|
    ensures Perform(Settled(s), CommandWrites(Settled(s), c).value, budget) == Settled(if c.ReadOnly? then s else NextState(s, c))
  {
    hide Perform, Sound;
    if c.Rotate? || c.Retire? {
      hide CommandWrites, NextState, CommitWrites, InFlight;
      CommandFollows(s, c);
      CommitCut(s, NextState(s, c), budget);
    } else if c.SignLease? {
      hide CommandWrites, NextState;
      SigningWrite(s, c);
      SigningIsAtomic(s, c, budget);
    } else {
      NoWrites(Settled(s), budget);
    }
  }

  lemma NoWrites(d: Disk, budget: nat)
    ensures Perform(d, [], budget) == d
  {
  }

  /** After an update rotation the new key signs updates, behind the old ones; nothing else changed. */
  lemma UpdateRotationResult(d: Disk, key: Key, budget: nat)
    requires Healthy(d) && Session(d, Rotate(UpdateAuthority, key), budget).1 == Done
    ensures
      var s, t := Logical(d), Session(d, Rotate(UpdateAuthority, key), budget).0;
      && t.journal == None
      && t.update.activeKid == key.kid && t.update.keys == s.update.keys + [key] && t.update.role == s.update.role
      && t.trust.updateKeys == s.update.keys + [key] && t.trust.leaseKeys == s.lease.keys
      && t.lease == s.lease && t.sequence == s.sequence
  {
    hide Session, Healthy, CommandWrites, Sound;
    CompletedSession(d, Rotate(UpdateAuthority, key), budget);
  }

  /** After a lease rotation the new key is active, trusted, last, and starts at sequence zero; every
      other key keeps its sequence, and the update authority is as it was. */
  lemma LeaseRotationResult(d: Disk, key: Key, budget: nat)
    requires Healthy(d) && Session(d, Rotate(WorkLeaseAuthority, key), budget).1 == Done
    ensures
      var s, t := Logical(d), Session(d, Rotate(WorkLeaseAuthority, key), budget).0;
      && t.journal == None
      && t.lease.activeKid == key.kid && t.lease.keys == s.lease.keys + [key] && t.lease.role == s.lease.role
      && t.trust.leaseKeys == s.lease.keys + [key] && t.trust.updateKeys == s.update.keys
      && t.update == s.update
      && key.kid !in s.sequence && t.sequence.Keys == s.sequence.Keys + {key.kid} && t.sequence[key.kid] == 0
      && forall kid :: kid in s.sequence ==> t.sequence[kid] == s.sequence[kid]
  {
    hide Session, Healthy, CommandWrites, Sound;
    var c := Rotate(WorkLeaseAuthority, key);
    CompletedSession(d, c, budget);
    NewLeaseKeyIsNew(Logical(d), key);
  }

  lemma NewLeaseKeyIsNew(s: AuthorityState, key: Key)
    requires Sound(s) && CommandWrites(Settled(s), Rotate(WorkLeaseAuthority, key)).Ok?
    ensures key.kid !in s.sequence
  {
    hide ValidKeys, HasKid, Kids, ValidKid, Apart;
    assert Files(Settled(s)) == s;
    AppendedKey(s.lease.keys, key, s.lease.activeKid);
  }

  /** The keys without the one at i, in their order. */
  function Dropped(keys: seq<Key>, i: nat): seq<Key>
    requires i < |keys|
  {
    keys[..i] + keys[i + 1..]
  }

  /** Without its one key of that id, a key list is the list with that place dropped. */
  lemma {:induction false} WithoutKidDrops(keys: seq<Key>, kid: string, i: nat)
    requires i < |keys| && keys[i].kid == kid && forall j, k :: 0 <= j < k < |keys| ==> keys[j].kid != keys[k].kid
    ensures WithoutKid(keys, kid) == Dropped(keys, i)
  {
    if i == 0 {
      NoneToDrop(keys[1..], kid);
      assert keys[..0] == [];
    } else {
      WithoutKidDrops(keys[1..], kid, i - 1);
      assert keys[1..][..i - 1] == keys[1..i] && keys[1..][i..] == keys[i + 1..];
      assert [keys[0]] + keys[1..i] == keys[..i];
    }
  }

  lemma {:induction false} NoneToDrop(keys: seq<Key>, kid: string)
    requires forall j :: 0 <= j < |keys| ==> keys[j].kid != kid
    ensures WithoutKid(keys, kid) == keys
  {
    if keys != [] {
      NoneToDrop(keys[1..], kid);
    }
  }

  /** After a retirement exactly that key is gone from its file and from trust, with its sequence if it
      was a lease key; the active keys and everything else are as they were. */
  lemma RetirementResult(d: Disk, role: Role, kid: string, budget: nat)
    requires Healthy(d) && Session(d, Retire(role, kid), budget).1 == Done
    ensures
      var s, t := Logical(d), Session(d, Retire(role, kid), budget).0;
      var old' := if role == UpdateAuthority then s.update else s.lease;
      var new' := if role == UpdateAuthority then t.update else t.lease;
      && t.journal == None && t.trust == Trust(t.update.keys, t.lease.keys)
      && kid != old'.activeKid && new'.activeKid == old'.activeKid && new'.role == old'.role
      && (exists i :: 0 <= i < |old'.keys| && old'.keys[i].kid == kid && new'.keys == Dropped(old'.keys, i))
      && (if role == UpdateAuthority then t.lease == s.lease else t.update == s.update)
      && t.sequence == (if role == UpdateAuthority then s.sequence else s.sequence - {kid})
  {
    hide Session, Healthy, CommandWrites, Sound;
    var s := Logical(d);
    CompletedSession(d, Retire(role, kid), budget);
    var i := RetiredPlace(s, role, kid);
  }

  lemma RetiredPlace(s: AuthorityState, role: Role, kid: string) returns (i: nat)
    requires Sound(s) && CommandWrites(Settled(s), Retire(role, kid)).Ok?
    ensures
      var target := if role == UpdateAuthority then s.update else s.lease;
      && kid != target.activeKid && i < |target.keys| && target.keys[i].kid == kid
      && WithoutKid(target.keys, kid) == Dropped(target.keys, i)
  {
    hide Apart, Kids, ValidKid, SameKeyIds;
    var target := if role == UpdateAuthority then s.update else s.lease;
    i :| 0 <= i < |target.keys| && target.keys[i].kid == kid;
    WithoutKidDrops(target.keys, kid, i);
  }

  /** Signing raises the sequence of the active lease key by one, within 64 bits, and changes nothing
      else. */
  lemma SigningResult(d: Disk, operationMatches: bool, budget: nat)
    requires Healthy(d) && Session(d, SignLease(operationMatches), budget).1 == Done
    ensures
      var s, t := Logical(d), Session(d, SignLease(operationMatches), budget).0;
      && operationMatches && s.lease.activeKid in s.sequence
      && t.sequence.Keys == s.sequence.Keys
      && t.sequence[s.lease.activeKid] == s.sequence[s.lease.activeKid] + 1 <= MAXIMUM_SEQUENCE
      && (forall kid :: kid in s.sequence && kid != s.lease.activeKid ==> t.sequence[kid] == s.sequence[kid])
      && t == Settled(s).(sequence := t.sequence)
  {
    hide Session, Healthy, Sound, CommandWrites;
    CompletedSession(d, SignLease(operationMatches), budget);
    SigningWrite(Logical(d), SignLease(operationMatches));
    SigningMatches(Logical(d), operationMatches);
  }

  /** Signing is refused exactly for another operation and for an exhausted sequence. */
  lemma SigningRefusedExactly(s: AuthorityState, operationMatches: bool)
    requires Sound(s)
    ensures s.lease.activeKid in s.sequence
    ensures
      CommandWrites(Settled(s), SignLease(operationMatches)).Ok? <==>
        operationMatches && s.sequence[s.lease.activeKid] < MAXIMUM_SEQUENCE
  {
    hide ValidKid, Apart;
    KidsMember(s.lease.keys, s.lease.activeKid);
  }

  lemma SigningMatches(s: AuthorityState, operationMatches: bool)
    requires CommandWrites(Settled(s), SignLease(operationMatches)).Ok?
    ensures operationMatches
  {
  }

  /** The first signature after a lease rotation is sequence one of the new key. */
  lemma RotatedKeySigns(d: Disk, key: Key, budget: nat, budget': nat)
    requires Healthy(d) && Session(d, Rotate(WorkLeaseAuthority, key), budget).1 == Done
    requires
      var rotated := Session(d, Rotate(WorkLeaseAuthority, key), budget).0;
      Session(rotated, SignLease(true), budget').1 == Done
    ensures
      var s := Logical(d);
      var rotated := Session(d, Rotate(WorkLeaseAuthority, key), budget).0;
      var t := Session(rotated, SignLease(true), budget').0;
      && key.kid in t.sequence && t.sequence[key.kid] == 1
      && forall kid :: kid in s.sequence ==> kid in t.sequence && t.sequence[kid] == s.sequence[kid]
  {
    hide Session, Healthy;
    var rotated := Session(d, Rotate(WorkLeaseAuthority, key), budget).0;
    SessionIsAtomic(d, Rotate(WorkLeaseAuthority, key), budget);
    LeaseRotationResult(d, key, budget);
    assert Logical(rotated) == Files(rotated);
    SigningResult(rotated, true, budget');
  }
}
