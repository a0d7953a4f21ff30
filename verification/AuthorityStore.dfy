/**
  The crash-recoverable authority store: four files and a write-ahead journal.  A process holds the
  lock, first completes any journal, then runs one command; it may die between any two file writes,
  including inside recovery.  This module says what each command writes and what a dying process
  leaves behind; AuthorityProcess.dfy computes it step by step.
 */
module AuthorityStore {
  import opened Wrappers
  import opened Limits

  const MAXIMUM_SEQUENCE: nat := MAX_U64
  const MAXIMUM_KEYS: nat := 8

  datatype Role = UpdateAuthority | WorkLeaseAuthority

  /** One key: its id and its public part. */
  datatype Key = Key(kid: string, x: string)

  datatype PrivateAuthority = PrivateAuthority(role: Role, activeKid: string, keys: seq<Key>)

  datatype Trust = Trust(updateKeys: seq<Key>, leaseKeys: seq<Key>)

  datatype AuthorityState = AuthorityState(update: PrivateAuthority, lease: PrivateAuthority, sequence: map<string, nat>)

  /** The files: trust.json, lease-sequence.json, update-private.json, lease-private.json and the journal. */
  datatype Disk = Disk(
    trust: Trust,
    sequence: map<string, nat>,
    update: PrivateAuthority,
    lease: PrivateAuthority,
    journal: Option<AuthorityState>)

  datatype AuthorityError =
    | PrivateAuthorityInvalid
    | SequenceStateInvalid
    | SequenceExhausted
    | TrustInvalid
    | AuthorityStateInvalid
    | KeyIdInvalid
    | KeyNotRetirable
    | OperationMismatch

  // ---------------------------------------------------------------- document checks

  predicate ValidKid(kid: string) {
    1 <= |kid| <= 32 && UrlSafe(kid)
  }

  predicate HasKid(keys: seq<Key>, kid: string) {
    exists i :: 0 <= i < |keys| && keys[i].kid == kid
  }

  function Kids(keys: seq<Key>): set<string> {
    set i | 0 <= i < |keys| :: keys[i].kid
  }

  predicate ValidKeys(keys: seq<Key>) {
    && 1 <= |keys| <= MAXIMUM_KEYS
    && (forall i :: 0 <= i < |keys| ==> ValidKid(keys[i].kid))
    && (forall i, j :: 0 <= i < j < |keys| ==> keys[i].kid != keys[j].kid && keys[i].x != keys[j].x)
  }

  /** parsePrivateAuthority. */
  predicate ParsesAs(a: PrivateAuthority, role: Role) {
    a.role == role && ValidKeys(a.keys) && HasKid(a.keys, a.activeKid)
  }

  /** parseSequenceDocument. */
  predicate ParsesAsSequence(s: map<string, nat>) {
    forall kid :: kid in s ==> ValidKid(kid) && s[kid] <= MAXIMUM_SEQUENCE
  }

  predicate Apart(updateKeys: seq<Key>, leaseKeys: seq<Key>) {
    forall i, j :: 0 <= i < |updateKeys| && 0 <= j < |leaseKeys| ==>
      updateKeys[i].kid != leaseKeys[j].kid && updateKeys[i].x != leaseKeys[j].x
  }

  function PublicTrust(update: PrivateAuthority, lease: PrivateAuthority): (r: Result<Trust, AuthorityError>)
    ensures r.Ok? ==> r.value == Trust(update.keys, lease.keys)
  {
    if ValidKeys(update.keys) && ValidKeys(lease.keys) && Apart(update.keys, lease.keys)
    then Ok(Trust(update.keys, lease.keys))
    else Err(TrustInvalid)
  }

  /** The sorted key id lists of the lease authority and of the sequence document are equal. */
  predicate SameKeyIds(keys: seq<Key>, sequence: map<string, nat>) {
    |keys| == |sequence| && Kids(keys) == sequence.Keys
  }

  predicate ValidState(s: AuthorityState) {
    PublicTrust(s.update, s.lease).Ok? && SameKeyIds(s.lease.keys, s.sequence)
  }

  // ---------------------------------------------------------------- writes

  datatype Write =
    | WriteJournal(state: AuthorityState)
    | WriteTrust(trust: Trust)
    | WriteSequence(sequence: map<string, nat>)
    | WriteUpdate(update: PrivateAuthority)
    | WriteLease(lease: PrivateAuthority)
    | RemoveJournal

  function ApplyWrite(d: Disk, w: Write): Disk {
    match w
    case WriteJournal(s) => d.(journal := Some(s))
    case WriteTrust(t) => d.(trust := t)
    case WriteSequence(s) => d.(sequence := s)
    case WriteUpdate(a) => d.(update := a)
    case WriteLease(a) => d.(lease := a)
    case RemoveJournal => d.(journal := None)
  }

  function ApplyWrites(d: Disk, ws: seq<Write>): Disk
    decreases |ws|
  {
    if ws == [] then d else ApplyWrites(ApplyWrite(d, ws[0]), ws[1..])
  }

  /** What a process that completes `budget` writes before dying leaves of a write list. */
  function Perform(d: Disk, ws: seq<Write>, budget: nat): Disk {
    ApplyWrites(d, if budget < |ws| then ws[..budget] else ws)
  }

  /** applyAuthorityState, in the source's order; no writes when there is no trust to publish. */
  function StateWrites(s: AuthorityState): (ws: seq<Write>)
    ensures |ws| == 4
  {
    [WriteTrust(Trust(s.update.keys, s.lease.keys)), WriteSequence(s.sequence), WriteUpdate(s.update), WriteLease(s.lease)]
  }

  function CommitWrites(s: AuthorityState): Result<seq<Write>, AuthorityError> {
    if PublicTrust(s.update, s.lease).Err? then Err(TrustInvalid)
    else if !SameKeyIds(s.lease.keys, s.sequence) then Err(AuthorityStateInvalid)
    else Ok([WriteJournal(s)] + StateWrites(s) + [RemoveJournal])
  }

  function RecoveryWrites(d: Disk): Result<seq<Write>, AuthorityError> {
    match d.journal
    case None => Ok([])
    case Some(s) =>
      if !ParsesAs(s.update, UpdateAuthority) || !ParsesAs(s.lease, WorkLeaseAuthority) then Err(PrivateAuthorityInvalid)
      else if !ParsesAsSequence(s.sequence) then Err(SequenceStateInvalid)
      else if PublicTrust(s.update, s.lease).Err? then Err(TrustInvalid)
      else if !SameKeyIds(s.lease.keys, s.sequence) then Err(AuthorityStateInvalid)
      else Ok(StateWrites(s) + [RemoveJournal])
  }

  // ---------------------------------------------------------------- commands

  datatype Command =
    | Rotate(role: Role, key: Key)
    | Retire(role: Role, kid: string)
    | SignLease(operationMatches: bool)
    | ReadOnly

  function WithoutKid(keys: seq<Key>, kid: string): (r: seq<Key>)
    ensures |r| <= |keys|
  {
    if keys == [] then []
    else if keys[0].kid == kid then WithoutKid(keys[1..], kid)
    else [keys[0]] + WithoutKid(keys[1..], kid)
  }

  /** rotateAuthority's next state. */
  function Rotated(s: AuthorityState, role: Role, key: Key): AuthorityState {
    match role
    case UpdateAuthority => s.(update := s.update.(activeKid := key.kid, keys := s.update.keys + [key]))
    case WorkLeaseAuthority =>
      s.(lease := s.lease.(activeKid := key.kid, keys := s.lease.keys + [key]), sequence := s.sequence[key.kid := 0])
  }

  /** retireAuthority's next state. */
  function Retired(s: AuthorityState, role: Role, kid: string): AuthorityState {
    match role
    case UpdateAuthority => s.(update := s.update.(keys := WithoutKid(s.update.keys, kid)))
    case WorkLeaseAuthority =>
      s.(lease := s.lease.(keys := WithoutKid(s.lease.keys, kid)), sequence := s.sequence - {kid})
  }

  function Files(d: Disk): AuthorityState {
    AuthorityState(d.update, d.lease, d.sequence)
  }

  /** The writes of one command on the files recovery has left, or the error it throws. */
  function CommandWrites(d: Disk, c: Command): Result<seq<Write>, AuthorityError> {
    match c
    case ReadOnly => Ok([])
    case Rotate(role, key) =>
      if !ParsesAs(d.update, UpdateAuthority) || !ParsesAs(d.lease, WorkLeaseAuthority) then Err(PrivateAuthorityInvalid)
      else if !ParsesAsSequence(d.sequence) then Err(SequenceStateInvalid)
      else CommitWrites(Rotated(Files(d), role, key))
    case Retire(role, kid) =>
      if !ValidKid(kid) then Err(KeyIdInvalid)
      else if !ParsesAs(d.update, UpdateAuthority) || !ParsesAs(d.lease, WorkLeaseAuthority) then Err(PrivateAuthorityInvalid)
      else
        var target := if role == UpdateAuthority then d.update else d.lease;
        if target.activeKid == kid || !HasKid(target.keys, kid) then Err(KeyNotRetirable)
        else if !ParsesAsSequence(d.sequence) then Err(SequenceStateInvalid)
        else CommitWrites(Retired(Files(d), role, kid))
    case SignLease(operationMatches) =>
      if !ParsesAs(d.lease, WorkLeaseAuthority) then Err(PrivateAuthorityInvalid)
      else if !operationMatches then Err(OperationMismatch)
      else if !ParsesAsSequence(d.sequence) || d.lease.activeKid !in d.sequence then Err(SequenceStateInvalid)
      else
        var next := d.sequence[d.lease.activeKid] + 1;
        if next > MAXIMUM_SEQUENCE then Err(SequenceExhausted)
        else Ok([WriteSequence(d.sequence[d.lease.activeKid := next])])
  }

  datatype Outcome = Done | Crashed | Failed(error: AuthorityError)

  /** One lock holder: recovery, then the command, dying after `budget` writes. */
  function Session(d: Disk, c: Command, budget: nat): (Disk, Outcome) {
    match RecoveryWrites(d)
    case Err(e) => (d, Failed(e))
    case Ok(recovery) =>
      var d1 := Perform(d, recovery, budget);
      if budget < |recovery| then (d1, Crashed) else
      match CommandWrites(d1, c)
      case Err(e) => (d1, Failed(e))
      case Ok(ws) =>
        (Perform(d1, ws, budget - |recovery|), if budget - |recovery| < |ws| then Crashed else Done)
  }

  // ---------------------------------------------------------------- what every file state keeps

  /** All four files come from one valid state, and there is no journal. */
  ghost predicate Stable(d: Disk, s: AuthorityState) {
    d == Disk(Trust(s.update.keys, s.lease.keys), s.sequence, s.update, s.lease, None)
  }

  ghost predicate Sound(s: AuthorityState) {
    && ParsesAs(s.update, UpdateAuthority) && ParsesAs(s.lease, WorkLeaseAuthority)
    && ParsesAsSequence(s.sequence) && ValidState(s)
  }

  /** The journal holds `next` and the first k of its files are already in place over `prior`. */
  ghost predicate InFlight(d: Disk, prior: AuthorityState, next: AuthorityState, k: nat) {
    && d.journal == Some(next)
    && d.trust == (if k >= 1 then Trust(next.update.keys, next.lease.keys) else Trust(prior.update.keys, prior.lease.keys))
    && d.sequence == (if k >= 2 then next.sequence else prior.sequence)
    && d.update == (if k >= 3 then next.update else prior.update)
    && d.lease == (if k >= 4 then next.lease else prior.lease)
  }

  /** A command's effect: keys the other state does not have are never active, and kept sequences agree. */
  ghost predicate Follows(prior: AuthorityState, next: AuthorityState) {
    && Sound(prior) && Sound(next)
    && HasKid(next.update.keys, prior.update.activeKid)
    && HasKid(next.lease.keys, prior.lease.activeKid)
    && forall kid :: kid in prior.sequence && kid in next.sequence ==> prior.sequence[kid] == next.sequence[kid]
  }

  /** The state the store stands for: the journal's once it is written, the files' otherwise. */
  function Logical(d: Disk): AuthorityState {
    if d.journal.Some? then d.journal.value else Files(d)
  }

  ghost predicate Healthy(d: Disk) {
    || (d.journal.None? && Sound(Files(d)) && Stable(d, Files(d)))
    || exists prior, next, k: nat :: InFlight(d, prior, next, k) && Follows(prior, next)
  }

  /** In the files themselves: both active keys are trusted, and the active lease key has a sequence. */
  ghost predicate Usable(d: Disk) {
    && HasKid(d.trust.updateKeys, d.update.activeKid)
    && HasKid(d.trust.leaseKeys, d.lease.activeKid)
    && d.lease.activeKid in d.sequence
  }

  /** The one file state that stands for s with nothing pending. */
  function Settled(s: AuthorityState): (d: Disk)
    ensures Stable(d, s)
  {
    Disk(Trust(s.update.keys, s.lease.keys), s.sequence, s.update, s.lease, None)
  }

  // ---------------------------------------------------------------- key lists

  lemma KidsMember(keys: seq<Key>, kid: string)
    ensures kid in Kids(keys) <==> HasKid(keys, kid)
  {
  }

  lemma HealthyIsUsable(d: Disk)
    requires Healthy(d)
    ensures Usable(d)
  {
    if d.journal.None? {
      KidsMember(d.lease.keys, d.lease.activeKid);
    } else {
      var prior, next, k: nat :| InFlight(d, prior, next, k) && Follows(prior, next);
      KidsMember(next.lease.keys, next.lease.activeKid);
      KidsMember(next.lease.keys, prior.lease.activeKid);
      KidsMember(prior.lease.keys, prior.lease.activeKid);
    }
  }

  lemma {:induction false} WithoutKidMembers(keys: seq<Key>, kid: string, k: Key)
    ensures k in WithoutKid(keys, kid) <==> k in keys && k.kid != kid
  {
    if keys != [] {
      WithoutKidMembers(keys[1..], kid, k);
      assert keys == [keys[0]] + keys[1..];
    }
  }

  lemma WithoutKidKids(keys: seq<Key>, kid: string)
    ensures Kids(WithoutKid(keys, kid)) == Kids(keys) - {kid}
  {
    var rest := WithoutKid(keys, kid);
    forall k ensures k in Kids(rest) <==> k in Kids(keys) - {kid} {
      if k in Kids(rest) {
        var i :| 0 <= i < |rest| && rest[i].kid == k;
        WithoutKidMembers(keys, kid, rest[i]);
      }
      if k in Kids(keys) - {kid} {
        var i :| 0 <= i < |keys| && keys[i].kid == k;
        WithoutKidMembers(keys, kid, keys[i]);
      }
    }
  }

  lemma {:induction false} WithoutKidDistinct(keys: seq<Key>, kid: string)
    requires forall i, j :: 0 <= i < j < |keys| ==> keys[i].kid != keys[j].kid && keys[i].x != keys[j].x
    requires forall i :: 0 <= i < |keys| ==> ValidKid(keys[i].kid)
    ensures var r := WithoutKid(keys, kid);
      (forall i, j :: 0 <= i < j < |r| ==> r[i].kid != r[j].kid && r[i].x != r[j].x)
      && forall i :: 0 <= i < |r| ==> ValidKid(r[i].kid)
  {
    if keys != [] {
      WithoutKidDistinct(keys[1..], kid);
      var r := WithoutKid(keys[1..], kid);
      forall j | 0 <= j < |r| ensures r[j].kid != keys[0].kid && r[j].x != keys[0].x {
        WithoutKidMembers(keys[1..], kid, r[j]);
        var m :| 0 <= m < |keys[1..]| && keys[1..][m] == r[j];
        assert keys[m + 1] == r[j];
      }
    }
  }

  lemma RetiredKeys(keys: seq<Key>, kid: string, kept: string)
    requires ValidKeys(keys) && HasKid(keys, kept) && kept != kid
    ensures ValidKeys(WithoutKid(keys, kid)) && HasKid(WithoutKid(keys, kid), kept)
  {
    WithoutKidDistinct(keys, kid);
    var i :| 0 <= i < |keys| && keys[i].kid == kept;
    WithoutKidMembers(keys, kid, keys[i]);
  }

  // ---------------------------------------------------------------- commands follow

  lemma RotationFollows(s: AuthorityState, role: Role, key: Key)
    requires Sound(s) && CommitWrites(Rotated(s, role, key)).Ok?
    ensures Follows(s, Rotated(s, role, key))
  {
    hide ValidKeys, HasKid, Kids, ValidKid, Apart;
    if role == UpdateAuthority {
      AppendedKey(s.update.keys, key, s.update.activeKid);
    } else {
      AppendedKey(s.lease.keys, key, s.lease.activeKid);
    }
  }

  lemma AppendedKey(keys: seq<Key>, key: Key, kept: string)
    requires ValidKeys(keys + [key]) && HasKid(keys, kept)
    ensures HasKid(keys + [key], key.kid) && HasKid(keys + [key], kept)
    ensures ValidKid(key.kid) && key.kid !in Kids(keys)
  {
    hide ValidKid;
    var n := |keys|;
    assert (keys + [key])[n] == key;
    var i :| 0 <= i < n && keys[i].kid == kept;
    assert (keys + [key])[i] == keys[i];
    forall j | 0 <= j < n ensures keys[j].kid != key.kid {
      assert (keys + [key])[j].kid != (keys + [key])[n].kid;
    }
  }

  lemma RetirementFollows(s: AuthorityState, role: Role, kid: string)
    requires Sound(s) && CommitWrites(Retired(s, role, kid)).Ok?
    requires (if role == UpdateAuthority then s.update.activeKid else s.lease.activeKid) != kid
    ensures Follows(s, Retired(s, role, kid))
  {
    if role == UpdateAuthority {
      RetiredKeys(s.update.keys, kid, s.update.activeKid);
    } else {
      RetiredKeys(s.lease.keys, kid, s.lease.activeKid);
    }
  }

  /** The state after a command that commits: what an atomic store would hold. */
  function NextState(s: AuthorityState, c: Command): AuthorityState {
    match c
    case Rotate(role, key) => Rotated(s, role, key)
    case Retire(role, kid) => Retired(s, role, kid)
    case SignLease(_) =>
      if s.lease.activeKid in s.sequence
      then s.(sequence := s.sequence[s.lease.activeKid := s.sequence[s.lease.activeKid] + 1]) else s
    case ReadOnly => s
  }

  lemma CommandFollows(s: AuthorityState, c: Command)
    requires Sound(s) && CommandWrites(Settled(s), c).Ok? && (c.Rotate? || c.Retire?)
    ensures Follows(s, NextState(s, c))
    ensures CommandWrites(Settled(s), c) == CommitWrites(NextState(s, c))
  {
    assert Files(Settled(s)) == s;
    match c
    case Rotate(role, key) => RotationFollows(s, role, key);
    case Retire(role, kid) => RetirementFollows(s, role, kid);
  }

  // ---------------------------------------------------------------- a write list, cut anywhere

  lemma {:induction false} ApplyWritesAppend(d: Disk, ws: seq<Write>, w: Write)
    ensures ApplyWrites(d, ws + [w]) == ApplyWrite(ApplyWrites(d, ws), w)
    decreases |ws|
  {
    if ws == [] {
      assert ApplyWrites(ApplyWrite(d, w), []) == ApplyWrite(d, w);
      assert [] + [w] == [w];
    } else {
      ApplyWritesAppend(ApplyWrite(d, ws[0]), ws[1..], w);
      assert (ws + [w])[0] == ws[0] && (ws + [w])[1..] == ws[1..] + [w];
    }
  }

  /** Putting the journaled files in place, from any earlier attempt: never less is in place. */
  lemma StateWritesCut(d: Disk, prior: AuthorityState, next: AuthorityState, k: nat, j: nat)
    requires InFlight(d, prior, next, k) && j <= 4
    ensures InFlight(ApplyWrites(d, StateWrites(next)[..j]), prior, next, if k < j then j else k)
  {
    var ws := StateWrites(next);
    if j > 0 {
      StateWritesCut(d, prior, next, k, j - 1);
      assert ws[..j] == ws[..j - 1] + [ws[j - 1]];
      ApplyWritesAppend(d, ws[..j - 1], ws[j - 1]);
    }
  }

  /** Recovery from a journal, cut after any number of writes. */
  lemma RecoveryCut(d: Disk, prior: AuthorityState, next: AuthorityState, k: nat, budget: nat)
    requires InFlight(d, prior, next, k)
    ensures
      var d' := Perform(d, StateWrites(next) + [RemoveJournal], budget);
      if budget < 5 then InFlight(d', prior, next, if k < budget then budget else k) else d' == Settled(next)
  {
    hide StateWrites, InFlight, ApplyWrite, ApplyWrites, Settled;
    var files := StateWrites(next);
    var ws := files + [RemoveJournal];
    if budget < 5 {
      StateWritesCut(d, prior, next, k, budget);
      assert ws[..budget] == files[..budget];
    } else {
      StateWritesCut(d, prior, next, k, 4);
      assert files[..4] == files;
      ApplyWritesAppend(d, files, RemoveJournal);
      AllInPlace(ApplyWrites(d, files), prior, next);
    }
  }

  lemma AllInPlace(d: Disk, prior: AuthorityState, next: AuthorityState)
    requires InFlight(d, prior, next, 4)
    ensures ApplyWrite(d, RemoveJournal) == Settled(next)
  {
  }

  /** A commit, cut after any number of writes: nothing, in flight, or all of it. */
  lemma CommitCut(s: AuthorityState, next: AuthorityState, budget: nat)
    requires Follows(s, next)
    ensures CommitWrites(next).Ok? && |CommitWrites(next).value| == 6
    ensures
      var d' := Perform(Settled(s), CommitWrites(next).value, budget);
      if budget == 0 then d' == Settled(s)
      else if budget < 6 then InFlight(d', s, next, budget - 1)
      else d' == Settled(next)
  {
    hide Follows, CommitWrites, StateWrites, InFlight, Settled, ApplyWrite, Perform;
    var rest := StateWrites(next) + [RemoveJournal];
    Journaled(s, next);
    var d := ApplyWrite(Settled(s), WriteJournal(next));
    PerformHead(Settled(s), WriteJournal(next), rest, budget);
    if budget > 0 {
      RecoveryCut(d, s, next, 0, budget - 1);
    }
  }

  /** The journal of a command that follows is written, and then nothing else is yet. */
  lemma Journaled(s: AuthorityState, next: AuthorityState)
    requires Follows(s, next)
    ensures CommitWrites(next) == Ok([WriteJournal(next)] + (StateWrites(next) + [RemoveJournal]))
    ensures InFlight(ApplyWrite(Settled(s), WriteJournal(next)), s, next, 0)
  {
    hide StateWrites, ParsesAs, ParsesAsSequence, HasKid, SameKeyIds, ValidKeys, Apart;
    var files := StateWrites(next);
    assert [WriteJournal(next)] + files + [RemoveJournal] == [WriteJournal(next)] + (files + [RemoveJournal]);
  }

  lemma PerformHead(d: Disk, w: Write, ws: seq<Write>, budget: nat)
    ensures Perform(d, [w] + ws, budget) == if budget == 0 then d else Perform(ApplyWrite(d, w), ws, budget - 1)
  {
    hide ApplyWrite;
    var all := [w] + ws;
    assert all[1..] == ws;
    if 0 < budget < |all| {
      assert all[..budget][1..] == ws[..budget - 1];
    }
  }

  // ---------------------------------------------------------------- one session

  /** Recovery never fails, and brings a healthy store to exactly the state it stands for. */
  lemma RecoverySettles(d: Disk, budget: nat)
    requires Healthy(d)
    ensures RecoveryWrites(d).Ok? && |RecoveryWrites(d).value| <= 5 && Sound(Logical(d))
    ensures
      var ws := RecoveryWrites(d).value;
      var d' := Perform(d, ws, budget);
      Healthy(d') && Logical(d') == Logical(d) && (budget >= |ws| ==> d' == Settled(Logical(d)))
  {
    hide InFlight, Follows, RecoveryWrites, StateWrites, Perform, Sound;
    if d.journal.Some? {
      HealthyJournal(d);
      var prior, next, k: nat :| InFlight(d, prior, next, k) && Follows(prior, next);
      JournalParses(d, prior, next, k);
      RecoveryCut(d, prior, next, k, budget);
      if budget < 5 {
        StillInFlight(Perform(d, StateWrites(next) + [RemoveJournal], budget), prior, next, if k < budget then budget else k);
      } else {
        SettledIsHealthy(next);
      }
    } else {
      NothingToRecover(d, budget);
    }
  }

  lemma HealthyJournal(d: Disk)
    requires Healthy(d) && d.journal.Some?
    ensures exists prior, next, k: nat :: InFlight(d, prior, next, k) && Follows(prior, next)
  {
    hide InFlight, Follows, Sound;
  }

  lemma StillInFlight(d: Disk, prior: AuthorityState, next: AuthorityState, k: nat)
    requires InFlight(d, prior, next, k) && Follows(prior, next)
    ensures Healthy(d) && Logical(d) == next
  {
    hide Follows, Sound;
  }

  lemma SettledIsHealthy(s: AuthorityState)
    requires Sound(s)
    ensures Healthy(Settled(s)) && Logical(Settled(s)) == s
  {
    hide Sound, InFlight, Follows;
    assert Files(Settled(s)) == s;
  }

  lemma NothingToRecover(d: Disk, budget: nat)
    requires Healthy(d) && d.journal.None?
    ensures RecoveryWrites(d) == Ok([]) && Perform(d, [], budget) == d
    ensures Sound(Logical(d)) && d == Settled(Logical(d))
  {
    hide Sound, Follows;
  }

  lemma JournalParses(d: Disk, prior: AuthorityState, next: AuthorityState, k: nat)
    requires InFlight(d, prior, next, k) && Follows(prior, next)
    ensures RecoveryWrites(d) == Ok(StateWrites(next) + [RemoveJournal]) && Logical(d) == next && Sound(next)
  {
    hide ParsesAs, ParsesAsSequence, HasKid, SameKeyIds, ValidKeys, Apart, StateWrites;
  }

  /** Did the command of this session take effect? */
  ghost predicate Commits(d: Disk, c: Command, budget: nat) {
    && RecoveryWrites(d).Ok?
    && budget > |RecoveryWrites(d).value|
    && CommandWrites(Settled(Logical(d)), c).Ok?
    && !c.ReadOnly?
  }

  /**
    A session, cut anywhere, leaves a healthy store that stands for the old state or for the
    command's whole effect, never for a mixture.
   */
  lemma SessionIsAtomic(d: Disk, c: Command, budget: nat)
    requires Healthy(d)
    ensures
      var d' := Session(d, c, budget).0;
      Healthy(d') && Logical(d') == if Commits(d, c, budget) then NextState(Logical(d), c) else Logical(d)
  {
    hide Healthy, RecoveryWrites, CommandWrites, Perform;
    RecoverySettles(d, budget);
    var s := Logical(d);
    var n := |RecoveryWrites(d).value|;
    if budget >= n && CommandWrites(Settled(s), c).Ok? {
      CommandIsAtomic(s, c, budget - n);
    }
  }

  lemma CommandIsAtomic(s: AuthorityState, c: Command, budget: nat)
    requires Sound(s) && CommandWrites(Settled(s), c).Ok?
    ensures
      var d' := Perform(Settled(s), CommandWrites(Settled(s), c).value, budget);
      Healthy(d') && Logical(d') == if budget > 0 && !c.ReadOnly? then NextState(s, c) else s
  {
    if c.Rotate? || c.Retire? {
      CommandFollows(s, c);
      CommitIsAtomic(s, NextState(s, c), budget);
    } else if c.SignLease? {
      SigningIsAtomic(s, c, budget);
    }
  }

  lemma CommitIsAtomic(s: AuthorityState, next: AuthorityState, budget: nat)
    requires Follows(s, next)
    ensures CommitWrites(next).Ok?
    ensures
      var d' := Perform(Settled(s), CommitWrites(next).value, budget);
      Healthy(d') && Logical(d') == if budget > 0 then next else s
  {
    hide InFlight, Follows, CommitWrites, Perform, Sound, Settled;
    CommitCut(s, next, budget);
    var d' := Perform(Settled(s), CommitWrites(next).value, budget);
    BothSound(s, next);
    if budget == 0 {
      SettledIsHealthy(s);
    } else if budget < 6 {
      StillInFlight(d', s, next, budget - 1);
    } else {
      SettledIsHealthy(next);
    }
  }

  lemma BothSound(s: AuthorityState, next: AuthorityState)
    requires Follows(s, next)
    ensures Sound(s) && Sound(next)
  {
    hide Sound;
  }

  lemma SigningIsAtomic(s: AuthorityState, c: Command, budget: nat)
    requires Sound(s) && c.SignLease? && CommandWrites(Settled(s), c).Ok?
    ensures
      var d' := Perform(Settled(s), CommandWrites(Settled(s), c).value, budget);
      d' == Settled(if budget > 0 then NextState(s, c) else s) && Sound(Logical(d'))
  {
    hide Sound, CommandWrites, Perform;
    SigningWrite(s, c);
    SigningKeepsSound(s);
    PerformOne(Settled(s), WriteSequence(NextState(s, c).sequence), budget);
  }

  lemma SigningWrite(s: AuthorityState, c: Command)
    requires c.SignLease? && CommandWrites(Settled(s), c).Ok?
    ensures CommandWrites(Settled(s), c).value == [WriteSequence(NextState(s, c).sequence)]
    ensures s.lease.activeKid in s.sequence && s.sequence[s.lease.activeKid] < MAXIMUM_SEQUENCE
  {
  }

  lemma PerformOne(d: Disk, w: Write, budget: nat)
    ensures Perform(d, [w], budget) == if budget > 0 then ApplyWrite(d, w) else d
  {
    assert [w][..0] == [] && [w][1..] == [];
    assert ApplyWrites(d, [w]) == ApplyWrites(ApplyWrite(d, w), [w][1..]);
  }

  lemma SigningKeepsSound(s: AuthorityState)
    requires Sound(s) && s.lease.activeKid in s.sequence && s.sequence[s.lease.activeKid] < MAXIMUM_SEQUENCE
    ensures Sound(NextState(s, SignLease(true)))
  {
    hide ValidKeys, HasKid, Apart, ValidKid, Kids;
    var next := NextState(s, SignLease(true));
    assert next.sequence.Keys == s.sequence.Keys;
    assert |next.sequence| == |next.sequence.Keys| == |s.sequence.Keys|;
  }
}
